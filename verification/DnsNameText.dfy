/** Which texts are names and which names satisfy a constraint, spelled out in bytes. */
module DnsNameText {
  import opened Bytes
  import opened LabelSplitting
  import opened DnsNames
  import opened DnsConstraintLaws
  import opened Sequences

  /** A letter, a digit, a hyphen or an underscore. */
  ghost predicate IsLabelText(part: Bytes, mayBeEmpty: bool) {
    && |part| <= 63
    && (part == [] ==> mayBeEmpty)
    && (forall i :: 0 <= i < |part| ==>
      || 0x30 <= part[i] <= 0x39 || 0x41 <= part[i] <= 0x5A || 0x61 <= part[i] <= 0x7A
      || part[i] == 0x2D || part[i] == 0x5F)
    && (part != [] ==> part[0] != 0x2D && part[|part| - 1] != 0x2D)
  }

  /** The parts of a name: the first part of a constraint may be empty, and the last is not a number. */
  ghost predicate AreNameParts(parts: seq<Bytes>, firstMayBeEmpty: bool) {
    && parts != []
    && (forall i :: 0 <= i < |parts| ==> IsLabelText(parts[i], firstMayBeEmpty && i == 0))
    && IsNoNumber(parts[|parts| - 1])
  }

  ghost predicate IsNoNumber(part: Bytes) {
    exists k :: 0 <= k < |part| && !(0x30 <= part[k] <= 0x39)
  }

  /** The parts with periods between them, and perhaps one more at the end. */
  ghost function Dotted(parts: seq<Bytes>, trailing: bool): Bytes
    requires parts != []
  {
    Join(parts) + if trailing then [0x2E] else []
  }

  /** Parts with periods between them, or an asterisk and a period before at least two parts. */
  ghost predicate IsNameText(name: Bytes, isConstraint: bool, wildcard: bool, parts: seq<Bytes>, trailing: bool) {
    && AreNameParts(parts, isConstraint && !wildcard)
    && if wildcard then |parts| >= 2 && name == [0x2A, 0x2E] + Dotted(parts, trailing)
       else name == Dotted(parts, trailing)
  }

  // ----- labels of dotted parts

  ghost predicate HaveNoPeriods(parts: seq<Bytes>) {
    forall i, j :: 0 <= i < |parts| && 0 <= j < |parts[i]| ==> parts[i][j] != PERIOD
  }

  lemma {:induction false} SplitJoin(parts: seq<Bytes>)
    requires parts != [] && HaveNoPeriods(parts)
    ensures Split(Join(parts)) == parts
  {
    if |parts| == 1 {
      SplitWhole(parts[0]);
    } else {
      var rest := parts[1..];
      assert HaveNoPeriods(rest);
      SplitJoin(rest);
      Reassociate(parts[0], [PERIOD], Join(rest));
      SplitFirst(parts[0], Join(rest));
    }
  }

  lemma LabelsOfDotted(parts: seq<Bytes>, trailing: bool)
    requires parts != [] && HaveNoPeriods(parts) && parts[|parts| - 1] != []
    ensures Labels(Dotted(parts, trailing)) == parts
  {
    SplitJoin(parts);
    if trailing {
      SplitConcat(Join(parts), []);
      SplitWhole([]);
      NothingAdded([PERIOD]);
      PushLast(parts, []);
    } else {
      NothingAdded(Join(parts));
    }
  }

  lemma DottedLabels(text: Bytes)
    requires text != []
    ensures Labels(text) != [] && text == Dotted(Labels(text), EndsInPeriod(text))
  {
    LabelsAreEmptyOnlyWhenTextIs(text);
    JoinSplit(text);
    if |Labels(text)| < |Split(text)| {
      PopLast(Split(text));
      JoinConcat(Labels(text), [[]]);
      NothingAdded([PERIOD]);
    } else {
      NothingAdded(text);
    }
  }

  lemma LabelTextExactly(part: Bytes, mayBeEmpty: bool)
    ensures IsLabelText(part, mayBeEmpty) <==> IsValidLabel(part) && (part == [] ==> mayBeEmpty)
  {
    forall i | 0 <= i < |part|
      ensures IsLabelByte(part[i]) <==>
        || 0x30 <= part[i] <= 0x39 || 0x41 <= part[i] <= 0x5A || 0x61 <= part[i] <= 0x7A
        || part[i] == 0x2D || part[i] == 0x5F
    {
    }
  }

  lemma NamePartsExactly(parts: seq<Bytes>, firstMayBeEmpty: bool)
    ensures AreNameParts(parts, firstMayBeEmpty) <==> parts != [] && AreValidLabels(parts, firstMayBeEmpty)
  {
    forall i | 0 <= i < |parts|
      ensures IsLabelText(parts[i], firstMayBeEmpty && i == 0)
        <==> IsValidLabel(parts[i]) && (parts[i] == [] ==> i == 0 && firstMayBeEmpty)
    {
      LabelTextExactly(parts[i], firstMayBeEmpty && i == 0);
    }
    if parts != [] {
      var last := parts[|parts| - 1];
      assert IsNoNumber(last) <==> !AllDigits(last);
    }
  }

  lemma NamePartsHaveNoPeriods(parts: seq<Bytes>, firstMayBeEmpty: bool)
    requires AreNameParts(parts, firstMayBeEmpty)
    ensures HaveNoPeriods(parts) && parts[|parts| - 1] != []
  {
    forall i, j | 0 <= i < |parts| && 0 <= j < |parts[i]| ensures parts[i][j] != PERIOD {
      assert IsLabelText(parts[i], firstMayBeEmpty && i == 0);
    }
  }

  lemma DottedDoesNotStartWithAsterisk(parts: seq<Bytes>, firstMayBeEmpty: bool, trailing: bool)
    requires AreNameParts(parts, firstMayBeEmpty)
    ensures Dotted(parts, trailing) != [] && Dotted(parts, trailing)[0] != 0x2A
  {
    assert IsLabelText(parts[0], firstMayBeEmpty);
    NamePartsHaveNoPeriods(parts, firstMayBeEmpty);
  }

  /** A name is valid exactly when it is the empty text or spelled so, in at most 253 bytes. */
  lemma ValidNameAsText(name: Bytes, isConstraint: bool)
    ensures IsValidDnsName(name, isConstraint) <==>
      && |name| <= 253
      && (name == [] || exists wildcard, parts, trailing :: IsNameText(name, isConstraint, wildcard, parts, trailing))
  {
    if IsValidDnsName(name, isConstraint) && name != [] {
      SpellOut(name, isConstraint);
    }
    if name == [] {
      SplitWhole([]);
    }
    forall wildcard, parts, trailing | IsNameText(name, isConstraint, wildcard, parts, trailing) && |name| <= 253
      ensures IsValidDnsName(name, isConstraint)
    {
      SpelledIsValid(name, isConstraint, wildcard, parts, trailing);
    }
  }

  lemma SpellOut(name: Bytes, isConstraint: bool)
    requires IsValidDnsName(name, isConstraint) && name != []
    ensures exists wildcard, parts, trailing :: IsNameText(name, isConstraint, wildcard, parts, trailing)
  {
    if IsWildcard(name) {
      LabelsAreEmptyOnlyWhenTextIs(name[2..]);
      assert name == [0x2A, 0x2E] + name[2..];
      SpellOutParts(name[2..], false);
      assert IsNameText(name, isConstraint, true, Labels(name[2..]), EndsInPeriod(name[2..]));
    } else {
      SpellOutParts(name, isConstraint);
      assert IsNameText(name, isConstraint, false, Labels(name), EndsInPeriod(name));
    }
  }

  ghost predicate EndsInPeriod(text: Bytes) {
    |Labels(text)| < |Split(text)|
  }

  lemma SpellOutParts(text: Bytes, firstMayBeEmpty: bool)
    requires text != [] && AreValidLabels(Labels(text), firstMayBeEmpty)
    ensures AreNameParts(Labels(text), firstMayBeEmpty) && text == Dotted(Labels(text), EndsInPeriod(text))
  {
    DottedLabels(text);
    NamePartsExactly(Labels(text), firstMayBeEmpty);
  }

  lemma SpelledIsValid(name: Bytes, isConstraint: bool, wildcard: bool, parts: seq<Bytes>, trailing: bool)
    requires IsNameText(name, isConstraint, wildcard, parts, trailing) && |name| <= 253
    ensures IsValidDnsName(name, isConstraint)
  {
    NamePartsExactly(parts, isConstraint && !wildcard);
    NamePartsHaveNoPeriods(parts, isConstraint && !wildcard);
    LabelsOfDotted(parts, trailing);
    if wildcard {
      assert name[2..] == Dotted(parts, trailing);
    } else {
      DottedDoesNotStartWithAsterisk(parts, isConstraint, trailing);
    }
  }

  // ----- constraints

  lemma FoldIsLowercase(s: Bytes, i: nat)
    requires i < |s|
    ensures Fold(s)[i] == if 0x41 <= s[i] <= 0x5A then s[i] + 0x20 else s[i]
  {
  }

  /** The empty constraint is satisfied by every valid name. */
  lemma EmptyConstraintMatchesAll(name: Bytes)
    ensures DnsNameMatches(name, []) <==> IsValidDnsName(name, false)
  {
    ValidNameAsText([], true);
  }

  /** What a constraint asks of a text; neither has upper-case letters, nor the constraint a period at its end. */
  ghost predicate TextSatisfies(name: Bytes, constraint: Bytes) {
    || constraint == []
    || (constraint[0] == 0x2E && exists before :: before != [] && name == before + constraint)
    || (constraint[0] != 0x2E && (name == constraint || exists before :: name == before + ([0x2E] + constraint)))
  }

  /** Satisfying a constraint, whatever it begins with, is a property of the two texts. */
  lemma MatchesAsText(name: Bytes, constraint: Bytes)
    ensures DnsNameMatches(name, constraint) <==>
      && IsValidDnsName(name, false) && IsValidDnsName(constraint, true)
      && TextSatisfies(Fold(name), Fold(if constraint != [] && constraint[|constraint| - 1] == 0x2E
                                         then constraint[..|constraint| - 1] else constraint))
  {
    if constraint == [] {
      EmptyConstraintMatchesAll(name);
    } else if IsValidDnsName(name, false) && IsValidDnsName(constraint, true) {
      ConstraintKeepsStart(constraint);
      if constraint[0] == PERIOD {
        DomainConstraintAsText(name, constraint);
      } else {
        HostConstraintAsText(name, constraint);
      }
    }
  }

  lemma ConstraintKeepsStart(constraint: Bytes)
    requires IsValidDnsName(constraint, true) && constraint != []
    ensures Relative(constraint) != [] && (Fold(Relative(constraint))[0] == PERIOD <==> constraint[0] == PERIOD)
  {
    FoldKeepsPeriods(constraint[0]);
    if constraint[0] == PERIOD {
      ValidConstraintIsNotPeriod(constraint);
    }
  }
}
