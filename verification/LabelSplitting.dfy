/** Splitting names into the labels between their periods. */
module LabelSplitting {
  import opened Bytes
  import opened Sequences

  /** The parts between the periods; there is always at least one. */
  function Split(s: Bytes): (labels: seq<Bytes>)
    ensures labels != []
    decreases |s|
  {
    var k := IndexOf(s, PERIOD);
    if k == |s| then [s] else [s[..k]] + Split(s[k + 1..])
  }

  /** The text without one trailing period. */
  function Relative(s: Bytes): Bytes {
    if s != [] && s[|s| - 1] == PERIOD then s[..|s| - 1] else s
  }

  /** The parts put back together. */
  function Join(labels: seq<Bytes>): Bytes
    requires labels != []
  {
    if |labels| == 1 then labels[0] else labels[0] + [PERIOD] + Join(labels[1..])
  }

  lemma IndexOfUnique(s: Bytes, b: Byte, k: nat)
    requires k <= |s| && (forall i :: 0 <= i < k ==> s[i] != b) && (k < |s| ==> s[k] == b)
    ensures IndexOf(s, b) == k
  {
  }

  lemma AfterLastUnique(s: Bytes, b: Byte, k: nat)
    requires k <= |s| && (forall i :: k <= i < |s| ==> s[i] != b) && (k > 0 ==> s[k - 1] == b)
    ensures AfterLast(s, b) == k
  {
  }

  lemma Cut(s: Bytes, k: nat)
    requires k < |s|
    ensures s == s[..k] + ([s[k]] + s[k + 1..])
  {
  }

  /** A text without periods is one label. */
  lemma SplitWhole(s: Bytes)
    requires forall i :: 0 <= i < |s| ==> s[i] != PERIOD
    ensures Split(s) == [s]
  {
    IndexOfUnique(s, PERIOD, |s|);
  }

  /** The first label ends at the first period. */
  lemma SplitFirst(head: Bytes, tail: Bytes)
    requires forall i :: 0 <= i < |head| ==> head[i] != PERIOD
    ensures Split(head + ([PERIOD] + tail)) == [head] + Split(tail)
  {
    var s := head + ([PERIOD] + tail);
    IndexOfUnique(s, PERIOD, |head|);
    assert s[..|head|] == head;
    assert s[|head| + 1..] == tail;
  }

  lemma {:induction false} JoinSplit(s: Bytes)
    ensures Join(Split(s)) == s
    decreases |s|
  {
    var k := IndexOf(s, PERIOD);
    if k < |s| {
      var tail := s[k + 1..];
      JoinSplit(tail);
      assert Split(s)[1..] == Split(tail);
      assert Join(Split(s)) == s[..k] + [PERIOD] + tail;
      Cut(s, k);
      Reassociate(s[..k], [PERIOD], tail);
    }
  }

  /** A period between two texts separates their labels. */
  lemma {:induction false} SplitConcat(a: Bytes, b: Bytes)
    ensures Split(a + ([PERIOD] + b)) == Split(a) + Split(b)
    decreases |a|
  {
    var k := IndexOf(a, PERIOD);
    if k == |a| {
      SplitFirst(a, b);
    } else {
      var head, tail := a[..k], a[k + 1..];
      SplitConcat(tail, b);
      SplitFirst(head, tail + ([PERIOD] + b));
      Cut(a, k);
      Regroup(head, [PERIOD], tail, [PERIOD] + b);
      Reassociate([head], Split(tail), Split(b));
    }
  }

  lemma {:induction false} JoinConcat(a: seq<Bytes>, b: seq<Bytes>)
    requires a != [] && b != []
    ensures Join(a + b) == Join(a) + ([PERIOD] + Join(b))
  {
    Uncons(a, b);
    if |a| == 1 {
      assert a[1..] == [];
      NothingAdded(b);
      Reassociate(a[0], [PERIOD], Join(b));
    } else {
      JoinConcat(a[1..], b);
      Reassociate(a[0] + [PERIOD], Join(a[1..]), [PERIOD] + Join(b));
    }
  }

  /** The last label is what follows the last period. */
  lemma SplitAtLastPeriod(s: Bytes)
    ensures var k := AfterLast(s, PERIOD);
      Split(s) == if k == 0 then [s] else Split(s[..k - 1]) + [s[k..]]
  {
    var k := AfterLast(s, PERIOD);
    if k == 0 {
      SplitWhole(s);
    } else {
      Cut(s, k - 1);
      SplitConcat(s[..k - 1], s[k..]);
      SplitWhole(s[k..]);
    }
  }

  /** Labels hold the bytes of the text, except for the periods. */
  lemma {:induction false} SplitBytes(s: Bytes, part: Bytes, b: Byte)
    requires part in Split(s) && b in part
    ensures b in s && b != PERIOD
    decreases |s|
  {
    var k := IndexOf(s, PERIOD);
    if k == |s| {
      assert s[..k] == s;
    } else if part != s[..k] {
      SplitBytes(s[k + 1..], part, b);
    }
  }

  function FoldAll(labels: seq<Bytes>): (folded: seq<Bytes>)
    ensures |folded| == |labels|
    ensures forall i :: 0 <= i < |labels| ==> folded[i] == Fold(labels[i])
  {
    seq(|labels|, i requires 0 <= i < |labels| => Fold(labels[i]))
  }

  lemma FoldKeepsPeriods(b: Byte)
    ensures FoldByte(b) == PERIOD <==> b == PERIOD
  {
  }

  /** Case folding commutes with splitting. */
  lemma {:induction false} SplitFold(s: Bytes)
    ensures Split(Fold(s)) == FoldAll(Split(s))
    decreases |s|
  {
    var k := IndexOf(s, PERIOD);
    forall i | 0 <= i < |s| ensures Fold(s)[i] == PERIOD <==> s[i] == PERIOD {
      FoldKeepsPeriods(s[i]);
    }
    if k == |s| {
      SplitWhole(Fold(s));
    } else {
      SplitFold(s[k + 1..]);
      Cut(Fold(s), k);
      assert Fold(s)[..k] == Fold(s[..k]);
      assert Fold(s)[k + 1..] == Fold(s[k + 1..]);
      SplitFirst(Fold(s)[..k], Fold(s)[k + 1..]);
      FoldAllCons(s[..k], Split(s[k + 1..]));
    }
  }

  lemma FoldAllCons(head: Bytes, tail: seq<Bytes>)
    ensures FoldAll([head] + tail) == [Fold(head)] + FoldAll(tail)
  {
  }
}
