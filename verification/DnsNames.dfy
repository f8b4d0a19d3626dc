/** dNSName constraints (x509-validator/src/rfc5280/dns_names.rs). */
module DnsNames {
  import opened Wrappers
  import opened Bytes
  import opened LabelSplitting
  import opened Sequences

  const MAXIMUM_LABEL_LENGTH: nat := 63
  const MAXIMUM_NAME_LENGTH: nat := 253

  // ----- valid names, label by label

  predicate IsLabelByte(b: Byte) {
    IsDigit(b) || IsLetter(b) || b == HYPHEN || b == UNDERSCORE
  }

  ghost predicate AllDigits(part: Bytes) {
    forall i :: 0 <= i < |part| ==> IsDigit(part[i])
  }

  ghost predicate AllLabelBytes(part: Bytes) {
    forall i :: 0 <= i < |part| ==> IsLabelByte(part[i])
  }

  ghost predicate IsValidLabel(part: Bytes) {
    && |part| <= MAXIMUM_LABEL_LENGTH
    && AllLabelBytes(part)
    && (part != [] ==> part[0] != HYPHEN && part[|part| - 1] != HYPHEN)
  }

  /** The labels of a text, one trailing period tolerated. */
  ghost function Labels(s: Bytes): seq<Bytes> {
    Trim(Split(s))
  }

  /** Without a last label that is empty. */
  ghost function Trim(parts: seq<Bytes>): seq<Bytes>
    requires parts != []
  {
    if parts[|parts| - 1] == [] then parts[..|parts| - 1] else parts
  }

  lemma TrimCons(head: Bytes, tail: seq<Bytes>)
    requires tail != []
    ensures Trim([head] + tail) == [head] + Trim(tail)
  {
    var parts := [head] + tail;
    assert parts[|parts| - 1] == tail[|tail| - 1];
    assert parts[..|parts| - 1] == [head] + tail[..|tail| - 1];
  }

  /** Valid labels, none empty except possibly the first, the last not a number. */
  ghost predicate AreValidLabels(parts: seq<Bytes>, firstMayBeEmpty: bool) {
    && (forall i :: 0 <= i < |parts| ==> IsValidLabel(parts[i]))
    && (forall i :: 0 <= i < |parts| && parts[i] == [] ==> i == 0 && firstMayBeEmpty)
    && (parts != [] ==> !AllDigits(parts[|parts| - 1]))
  }

  ghost predicate IsWildcard(name: Bytes) {
    name != [] && name[0] == ASTERISK
  }

  ghost predicate IsValidDnsName(name: Bytes, isConstraint: bool) {
    && |name| <= MAXIMUM_NAME_LENGTH
    && if IsWildcard(name) then
         && |name| >= 2 && name[1] == PERIOD
         && AreValidLabels(Labels(name[2..]), false)
         && |Labels(name[2..])| >= 2
       else
         AreValidLabels(Labels(name), isConstraint)
  }

  // ----- the scan

  datatype LabelContents = AllAscii(nonNumerics: nat) | NonAscii

  method ScanLabel(part: Bytes) returns (contents: LabelContents)
    ensures contents.NonAscii? <==> !AllLabelBytes(part)
    ensures contents.AllAscii? ==> (contents.nonNumerics == 0 <==> AllDigits(part))
  {
    var nonNumerics := 0;
    for k := 0 to |part|
      invariant forall i :: 0 <= i < k ==> IsLabelByte(part[i])
      invariant nonNumerics == 0 <==> forall i :: 0 <= i < k ==> IsDigit(part[i])
    {
      if IsDigit(part[k]) {
      } else if IsLetter(part[k]) || part[k] == HYPHEN || part[k] == UNDERSCORE {
        nonNumerics := nonNumerics + 1;
      } else {
        assert !IsLabelByte(part[k]);
        return NonAscii;
      }
    }
    return AllAscii(nonNumerics);
  }

  /** The next label of a text and the text after its period. */
  method NextLabel(bytes: Bytes) returns (part: Bytes, rest: Bytes)
    requires bytes != []
    ensures |rest| < |bytes|
    ensures Labels(bytes) == [part] + Labels(rest)
    ensures rest == [] ==> Labels(rest) == []
  {
    var k := IndexOf(bytes, PERIOD);
    if k < |bytes| {
      part, rest := bytes[..k], bytes[k + 1..];
      LabelsCons(bytes, k);
    } else {
      part, rest := bytes, [];
      SplitWhole(bytes);
      assert [bytes][0] != [];
    }
    SplitWhole([]);
  }

  lemma LabelsCons(bytes: Bytes, k: nat)
    requires k < |bytes| && k == IndexOf(bytes, PERIOD)
    ensures Labels(bytes) == [bytes[..k]] + Labels(bytes[k + 1..])
  {
    Cut(bytes, k);
    SplitFirst(bytes[..k], bytes[k + 1..]);
    TrimCons(bytes[..k], Split(bytes[k + 1..]));
  }

  /** The checks the scan makes on one label. */
  method CheckLabel(part: Bytes, mayBeEmpty: bool, isLast: bool) returns (valid: bool)
    ensures valid <==> IsValidLabel(part) && (part == [] ==> mayBeEmpty) && (isLast ==> !AllDigits(part))
  {
    if part == [] && !mayBeEmpty {
      return false;
    }
    if part != [] && (part[0] == HYPHEN || part[|part| - 1] == HYPHEN) {
      return false;
    }
    if |part| > MAXIMUM_LABEL_LENGTH {
      return false;
    }
    var contents := ScanLabel(part);
    match contents {
      case NonAscii => return false;
      case AllAscii(nonNumerics) => return !(nonNumerics == 0 && isLast);
    }
  }

  /** The labels before `later` are in order; the last label of all must not be a number. */
  ghost predicate ScannedSoFar(all: seq<Bytes>, done: seq<Bytes>, later: seq<Bytes>, firstMayBeEmpty: bool) {
    && all == done + later
    && (forall i :: 0 <= i < |done| ==> IsValidLabel(done[i]))
    && (forall i :: 0 <= i < |done| && done[i] == [] ==> i == 0 && firstMayBeEmpty)
    && (done != [] && later == [] ==> !AllDigits(done[|done| - 1]))
  }

  /** One more label has been looked at. */
  lemma ScanStep(all: seq<Bytes>, done: seq<Bytes>, part: Bytes, later: seq<Bytes>, firstMayBeEmpty: bool, ok: bool)
    requires ScannedSoFar(all, done, [part] + later, firstMayBeEmpty)
    requires ok <==>
      && IsValidLabel(part)
      && (part == [] ==> done == [] && firstMayBeEmpty)
      && (later == [] ==> !AllDigits(part))
    ensures if ok then ScannedSoFar(all, done + [part], later, firstMayBeEmpty)
      else !AreValidLabels(all, firstMayBeEmpty)
  {
    Reassociate(done, [part], later);
    assert all[|done|] == part;
  }

  lemma ScanEnds(all: seq<Bytes>, done: seq<Bytes>, firstMayBeEmpty: bool)
    requires ScannedSoFar(all, done, [], firstMayBeEmpty)
    ensures done == all && AreValidLabels(all, firstMayBeEmpty)
  {
    NothingAdded(done);
  }

  lemma LabelsAreEmptyOnlyWhenTextIs(rest: Bytes)
    ensures Labels(rest) == [] <==> rest == []
  {
    SplitWhole([]);
    var k := IndexOf(rest, PERIOD);
    if rest != [] {
      if k < |rest| {
        LabelsCons(rest, k);
      } else {
        SplitWhole(rest);
      }
    }
  }

  /** Scans the labels of a text one by one. */
  method ScanLabels(text: Bytes, labelsBefore: nat, isConstraint: bool) returns (valid: bool, labelCount: nat)
    requires labelsBefore <= 1
    ensures valid <==> AreValidLabels(Labels(text), isConstraint && labelsBefore == 0)
    ensures valid ==> labelCount == labelsBefore + |Labels(text)|
  {
    var bytes := text;
    labelCount := labelsBefore;
    ghost var done: seq<Bytes> := [];
    ghost var mayBeEmpty := isConstraint && labelsBefore == 0;
    ghost var all := Labels(text);
    NothingAdded(all);
    while bytes != []
      invariant labelCount == labelsBefore + |done|
      invariant ScannedSoFar(all, done, Labels(bytes), mayBeEmpty)
      decreases |bytes|
    {
      var part, rest := NextLabel(bytes);
      labelCount := labelCount + 1;
      LabelsAreEmptyOnlyWhenTextIs(rest);
      var ok := CheckLabel(part, labelCount == 1 && isConstraint, rest == []);
      ScanStep(all, done, part, Labels(rest), mayBeEmpty, ok);
      if !ok {
        return false, labelCount;
      }
      done, bytes := done + [part], rest;
    }
    SplitWhole([]);
    ScanEnds(all, done, mayBeEmpty);
    return true, labelCount;
  }

  method CheckIsValidDnsName(name: Bytes, isConstraint: bool) returns (valid: bool)
    ensures valid == IsValidDnsName(name, isConstraint)
  {
    if |name| > MAXIMUM_NAME_LENGTH {
      return false;
    }
    var bytes, labelCount, isWildcard := name, 0, false;
    if name != [] && name[0] == ASTERISK {
      if |name| < 2 || name[1] != PERIOD {
        return false;
      }
      bytes, labelCount, isWildcard := name[2..], 1, true;
    }
    valid, labelCount := ScanLabels(bytes, labelCount, isConstraint);
    if valid && isWildcard && labelCount < 3 {
      return false;
    }
  }

  // ----- the walk over reversed labels

  /** Equal when the 0x20 bit is ignored. */
  predicate MaskedEqual(x: Byte, y: Byte) {
    x & 0xDF == y & 0xDF
  }

  predicate CaseInsensitiveAsciiMatch(a: Bytes, b: Bytes) {
    |a| == |b| && forall i :: 0 <= i < |a| ==> MaskedEqual(a[i], b[i])
  }

  class ReverseDnsLabels {
    var remaining: Option<Bytes>

    /** The labels still to be yielded, the next one last. */
    ghost function Pending(): seq<Bytes>
      reads this
    {
      if remaining.None? then [] else Split(remaining.value)
    }

    constructor (name: Bytes)
      ensures Pending() == Split(name)
    {
      remaining := Some(name);
    }

    predicate HasMoreLabels()
      reads this
      ensures HasMoreLabels() <==> Pending() != []
    {
      remaining.Some?
    }

    /** Yields the last label not yet yielded. */
    method Next() returns (next: Option<Bytes>)
      modifies this
      ensures old(Pending()) == [] ==> next == None && Pending() == []
      ensures old(Pending()) != [] ==> next == Some(Last(old(Pending()))) && Pending() == Init(old(Pending()))
    {
      if remaining.None? {
        return None;
      }
      var base := remaining.value;
      SplitAtLastPeriod(base);
      var start := AfterLast(base, PERIOD);
      if start > 0 {
        remaining := Some(base[..start - 1]);
        next := Some(base[start..]);
      } else {
        remaining := None;
        next := Some(base);
      }
    }
  }

  ghost function Last(parts: seq<Bytes>): Bytes
    requires parts != []
  {
    parts[|parts| - 1]
  }

  ghost function Init(parts: seq<Bytes>): seq<Bytes>
    requires parts != []
  {
    parts[..|parts| - 1]
  }

  /** What walking both label sequences from their ends decides. */
  ghost predicate Walk(name: seq<Bytes>, constraint: seq<Bytes>) {
    if constraint == [] then true
    else if name == [] || Last(name) == [] then false
    else if Last(constraint) == [] then Init(constraint) == []
    else CaseInsensitiveAsciiMatch(Last(name), Last(constraint)) && Walk(Init(name), Init(constraint))
  }

  method WalkLabels(name: Bytes, constraint: Bytes) returns (matched: bool)
    ensures matched == Walk(Split(name), Split(constraint))
  {
    var dnsLabels := new ReverseDnsLabels(name);
    var constraintLabels := new ReverseDnsLabels(constraint);
    while true
      invariant fresh(dnsLabels) && fresh(constraintLabels) && dnsLabels != constraintLabels
      invariant Walk(Split(name), Split(constraint)) == Walk(dnsLabels.Pending(), constraintLabels.Pending())
      decreases |constraintLabels.Pending()|
    {
      var nextDnsLabel := dnsLabels.Next();
      var nextConstraintLabel := constraintLabels.Next();
      if nextConstraintLabel.None? {
        return true;
      } else if nextDnsLabel.None? {
        return false;
      } else if nextDnsLabel.value == [] {
        return false;
      } else if nextConstraintLabel.value == [] {
        return !constraintLabels.HasMoreLabels();
      } else if !CaseInsensitiveAsciiMatch(nextDnsLabel.value, nextConstraintLabel.value) {
        return false;
      }
    }
  }

  // ----- matching as a suffix of labels

  /** The name ends in these labels, letter case aside. */
  ghost predicate EndsIn(name: seq<Bytes>, suffix: seq<Bytes>) {
    && |suffix| <= |name|
    && FoldAll(name[|name| - |suffix|..]) == FoldAll(suffix)
  }

  /** A constraint whose first label is empty asks for at least one more label. */
  ghost predicate SatisfiedBy(constraint: seq<Bytes>, name: seq<Bytes>) {
    if constraint != [] && constraint[0] == [] then
      |constraint| <= |name| && EndsIn(name, constraint[1..])
    else
      EndsIn(name, constraint)
  }

  /** The name satisfies the dNSName constraint. */
  ghost predicate DnsNameMatches(name: Bytes, constraint: Bytes) {
    && IsValidDnsName(name, false)
    && IsValidDnsName(constraint, true)
    && (constraint == [] || SatisfiedBy(Labels(constraint), Split(name)))
  }

  predicate IsNameByte(b: Byte) {
    IsLabelByte(b) || b == ASTERISK
  }

  lemma MaskIsFold(x: Byte, y: Byte)
    requires IsNameByte(x) && IsNameByte(y)
    ensures MaskedEqual(x, y) <==> FoldByte(x) == FoldByte(y)
  {
  }

  ghost predicate AreNameLabels(parts: seq<Bytes>) {
    forall i, j :: 0 <= i < |parts| && 0 <= j < |parts[i]| ==> IsNameByte(parts[i][j])
  }

  lemma MaskedMatchIsFold(a: Bytes, b: Bytes)
    requires forall i :: 0 <= i < |a| ==> IsNameByte(a[i])
    requires forall i :: 0 <= i < |b| ==> IsNameByte(b[i])
    ensures CaseInsensitiveAsciiMatch(a, b) <==> Fold(a) == Fold(b)
  {
    if |a| == |b| {
      forall i | 0 <= i < |a| ensures MaskedEqual(a[i], b[i]) <==> Fold(a)[i] == Fold(b)[i] {
        MaskIsFold(a[i], b[i]);
      }
    }
  }

  lemma EndsInLast(name: seq<Bytes>, suffix: seq<Bytes>)
    requires name != [] && suffix != []
    ensures EndsIn(name, suffix) <==> Fold(Last(name)) == Fold(Last(suffix)) && EndsIn(Init(name), Init(suffix))
  {
    if |suffix| <= |name| {
      var tail := name[|name| - |suffix|..];
      assert tail[|suffix| - 1] == Last(name);
      assert Init(name)[|Init(name)| - |Init(suffix)|..] == tail[..|suffix| - 1];
      FoldAllInit(tail);
      FoldAllInit(suffix);
    }
  }

  lemma FoldAllInit(parts: seq<Bytes>)
    requires parts != []
    ensures FoldAll(parts) == FoldAll(Init(parts)) + [Fold(Last(parts))]
  {
  }

  /**
   * Name labels of which only the last may be empty, constraint labels of which only the first may be, and not
   * alone.
   */
  ghost predicate WellPlaced(name: seq<Bytes>, constraint: seq<Bytes>) {
    && (forall i :: 0 <= i < |name| - 1 ==> name[i] != [])
    && (forall i :: 1 <= i < |constraint| ==> constraint[i] != [])
    && (constraint == [[]] ==> name == [] || Last(name) != [])
  }

  lemma {:induction false} WalkIsSuffix(name: seq<Bytes>, constraint: seq<Bytes>)
    requires AreNameLabels(name) && AreNameLabels(constraint) && WellPlaced(name, constraint)
    ensures Walk(name, constraint) <==> SatisfiedBy(constraint, name)
  {
    if constraint == [] {
      assert name[|name|..] == [];
    } else if name == [] {
    } else if Last(constraint) == [] {
      assert constraint == [[]];
      assert constraint[1..] == [] && name[|name|..] == [];
    } else {
      var n, c := Last(name), Last(constraint);
      MaskedMatchIsFold(n, c);
      WalkIsSuffix(Init(name), Init(constraint));
      SatisfiedByLast(constraint, name);
    }
  }

  lemma SatisfiedByLast(constraint: seq<Bytes>, name: seq<Bytes>)
    requires name != [] && constraint != [] && Last(constraint) != []
    ensures SatisfiedBy(constraint, name)
      <==> Fold(Last(name)) == Fold(Last(constraint)) && SatisfiedBy(Init(constraint), Init(name))
  {
    if constraint[0] == [] {
      assert Init(constraint)[1..] == Init(constraint[1..]);
      EndsInLast(name, constraint[1..]);
    } else {
      EndsInLast(name, constraint);
      if Init(constraint) != [] {
        assert Init(constraint)[0] == constraint[0];
      }
    }
  }

  // ----- labels of valid names

  /** Dropping one trailing period from the text drops the empty label it leaves. */
  lemma LabelsWithoutTrailingPeriod(s: Bytes)
    requires s != []
    ensures Labels(s) == Split(Relative(s))
  {
    SplitAtLastPeriod(s);
    if s[|s| - 1] == PERIOD {
      AfterLastUnique(s, PERIOD, |s|);
      TrimLast(Split(s[..|s| - 1]), []);
    } else {
      var k := AfterLast(s, PERIOD);
      if k > 0 {
        TrimLast(Split(s[..k - 1]), s[k..]);
      }
    }
  }

  lemma TrimLast(parts: seq<Bytes>, last: Bytes)
    ensures Trim(parts + [last]) == if last == [] then parts else parts + [last]
  {
    PushLast(parts, last);
  }

  lemma TrimmedLabels(s: Bytes)
    ensures Labels(s) <= Split(s) && |Split(s)| <= |Labels(s)| + 1
    ensures |Labels(s)| < |Split(s)| ==> Split(s)[|Split(s)| - 1] == []
  {
  }

  /** A wildcard name is the asterisk and the labels after it. */
  lemma WildcardLabels(name: Bytes)
    requires |name| >= 2 && name[0] == ASTERISK && name[1] == PERIOD
    ensures Split(name) == [[ASTERISK]] + Split(name[2..])
    ensures Labels(name) == [[ASTERISK]] + Labels(name[2..])
  {
    assert name == [ASTERISK] + ([PERIOD] + name[2..]);
    SplitFirst([ASTERISK], name[2..]);
    TrimCons([ASTERISK], Split(name[2..]));
  }

  ghost predicate OnlyFirstEmpty(parts: seq<Bytes>) {
    forall i :: 1 <= i < |parts| ==> parts[i] != []
  }

  lemma ValidLabelsAreNameLabels(parts: seq<Bytes>, firstMayBeEmpty: bool)
    requires AreValidLabels(parts, firstMayBeEmpty)
    ensures AreNameLabels(parts) && OnlyFirstEmpty(parts) && parts != [[]]
    ensures !firstMayBeEmpty && parts != [] ==> parts[0] != []
  {
    forall i, j | 0 <= i < |parts| && 0 <= j < |parts[i]| ensures IsNameByte(parts[i][j]) {
      assert IsValidLabel(parts[i]);
    }
  }

  lemma ValidNameLabels(name: Bytes, isConstraint: bool)
    requires IsValidDnsName(name, isConstraint)
    ensures AreNameLabels(Labels(name)) && OnlyFirstEmpty(Labels(name)) && Labels(name) != [[]]
    ensures !isConstraint && Labels(name) != [] ==> Labels(name)[0] != []
  {
    if IsWildcard(name) {
      WildcardLabels(name);
      ValidLabelsAreNameLabels(Labels(name[2..]), false);
    } else {
      ValidLabelsAreNameLabels(Labels(name), isConstraint);
    }
  }

  lemma ValidPairIsWellPlaced(name: Bytes, constraint: Bytes)
    requires IsValidDnsName(name, false) && IsValidDnsName(constraint, true)
    ensures AreNameLabels(Split(name)) && AreNameLabels(Labels(constraint))
    ensures WellPlaced(Split(name), Labels(constraint))
  {
    ValidNameLabels(name, false);
    ValidNameLabels(constraint, true);
    TrimmedLabels(name);
    forall i | 0 <= i < |Split(name)| - 1 ensures Split(name)[i] != [] {
      assert Split(name)[i] == Labels(name)[i];
    }
    forall i, j | 0 <= i < |Split(name)| && 0 <= j < |Split(name)[i]| ensures IsNameByte(Split(name)[i][j]) {
      assert i < |Labels(name)| ==> Split(name)[i] == Labels(name)[i];
    }
  }

  method DnsNameMatchesConstraint(name: Bytes, constraint: Bytes) returns (matched: bool)
    ensures matched == DnsNameMatches(name, constraint)
  {
    var nameIsValid := CheckIsValidDnsName(name, false);
    if !nameIsValid {
      return false;
    }
    var constraintIsValid := CheckIsValidDnsName(constraint, true);
    if !constraintIsValid {
      return false;
    }
    if constraint == [] {
      return true;
    }
    LabelsWithoutTrailingPeriod(constraint);
    ValidPairIsWellPlaced(name, constraint);
    WalkIsSuffix(Split(name), Labels(constraint));
    matched := WalkLabels(name, Relative(constraint));
  }
}
