/** What policy! and one_of! blocks mean, item by item (x509-validator/src/policy_builder.rs). */
module PolicyBlocks {
  import opened Wrappers
  import opened Bytes
  import opened Certificates
  import opened PolicyBuilder

  /** An item of a block: a policy, one under a condition, or one of two. */
  datatype Item =
    | Always(policy: Policy)
    | If(condition: bool, policy: Policy)
    | IfElse(condition: bool, policy: Policy, otherwise: Policy)
  {
    predicate IsOn() {
      If? ==> condition
    }

    function Chosen(): Policy {
      if IfElse? && !condition then otherwise else policy
    }

    function ForAll(): Policy {
      match this
      case Always(p) => p
      case If(on, p) => WrappedOptional(if on then Some(p) else None)
      case IfElse(on, p, q) => Choice(if on then First(p) else Second(q))
    }

    function ForOne(): Policy {
      match this
      case Always(p) => p
      case If(on, p) => OneOfWrappedOptional(if on then Some(p) else None)
      case IfElse(on, p, q) => Choice(if on then First(p) else Second(q))
    }
  }

  /** The tree a policy! block builds. */
  function AllOf(items: seq<Item>): Policy
    requires items != []
  {
    if |items| == 1 then items[0].ForAll() else Tuple2(items[0].ForAll(), AllOf(items[1..]))
  }

  /** The tree a one_of! block builds. */
  function OneOf(items: seq<Item>): Policy
    requires items != []
  {
    if |items| == 1 then items[0].ForOne() else OneOfTuple2(items[0].ForOne(), OneOf(items[1..]))
  }

  // ----- verdicts

  ghost predicate IsMet(item: Item, chain: Chain) {
    item.Chosen().ChainMeetsPolicyRequirements(chain).Ok?
  }

  /** Item i is on and rejects for this reason, and no item before it that is on rejects. */
  ghost predicate IsFirstUnmet(items: seq<Item>, chain: Chain, i: nat, reason: Reason) {
    && i < |items| && items[i].IsOn()
    && items[i].Chosen().ChainMeetsPolicyRequirements(chain) == Err(reason)
    && forall j :: 0 <= j < i && items[j].IsOn() ==> IsMet(items[j], chain)
  }

  ghost predicate IsFirstReason(items: seq<Item>, chain: Chain, reason: Reason) {
    exists i: nat :: IsFirstUnmet(items, chain, i, reason)
  }

  /** A policy! block accepts when every item that is on does, and reports the reason of the first that does not. */
  lemma {:induction false} AllOfDecides(items: seq<Item>, chain: Chain)
    requires items != []
    ensures match AllOf(items).ChainMeetsPolicyRequirements(chain)
      case Ok(_) => forall i :: 0 <= i < |items| && items[i].IsOn() ==> IsMet(items[i], chain)
      case Err(reason) => IsFirstReason(items, chain, reason)
  {
    var head := items[0].ForAll().ChainMeetsPolicyRequirements(chain);
    assert head == if items[0].IsOn() then items[0].Chosen().ChainMeetsPolicyRequirements(chain) else Ok(());
    if head.Err? {
      var i: nat := 0;
      assert IsFirstUnmet(items, chain, i, head.error);
      assert AllOf(items).ChainMeetsPolicyRequirements(chain) == head;
    } else if |items| > 1 {
      var rest := items[1..];
      AllOfDecides(rest, chain);
      var verdict := AllOf(rest).ChainMeetsPolicyRequirements(chain);
      assert AllOf(items).ChainMeetsPolicyRequirements(chain) == verdict;
      if verdict.Err? {
        var i: nat :| IsFirstUnmet(rest, chain, i, verdict.error);
        UnmetLater(items, chain, i, verdict.error);
        assert IsFirstReason(items, chain, verdict.error);
      } else {
        forall i | 1 <= i < |items| && items[i].IsOn() ensures IsMet(items[i], chain) {
          assert items[i] == rest[i - 1];
        }
      }
    }
  }

  lemma UnmetLater(items: seq<Item>, chain: Chain, i: nat, reason: Reason)
    requires items != [] && (items[0].IsOn() ==> IsMet(items[0], chain))
    requires IsFirstUnmet(items[1..], chain, i, reason)
    ensures IsFirstReason(items, chain, reason)
  {
    var next: nat := i + 1;
    forall j | 0 <= j < i + 1 && items[j].IsOn() ensures IsMet(items[j], chain) {
      assert j > 0 ==> items[j] == items[1..][j - 1];
    }
    assert IsFirstUnmet(items, chain, next, reason);
  }

  /** What an alternative that does not accept says. */
  ghost function Complaint(item: Item, chain: Chain): Reason {
    if !item.IsOn() then "alternative is disabled"
    else
      var verdict := item.Chosen().ChainMeetsPolicyRequirements(chain);
      if verdict.Err? then verdict.error else ""
  }

  ghost function Complaints(items: seq<Item>, chain: Chain): Reason
    requires items != []
  {
    if |items| == 1 then Complaint(items[0], chain)
    else Complaint(items[0], chain) + " and " + Complaints(items[1..], chain)
  }

  /** A one_of! block accepts when some item that is on does, and otherwise reports every item's reason in order. */
  lemma {:induction false} OneOfDecides(items: seq<Item>, chain: Chain)
    requires items != []
    ensures var result := OneOf(items).ChainMeetsPolicyRequirements(chain);
      && (result.Ok? <==> exists i :: 0 <= i < |items| && items[i].IsOn() && IsMet(items[i], chain))
      && (result.Err? ==> result.error == Complaints(items, chain))
  {
    if |items| > 1 {
      var rest := items[1..];
      OneOfDecides(rest, chain);
      if i :| 0 <= i < |rest| && rest[i].IsOn() && IsMet(rest[i], chain) {
        assert items[i + 1] == rest[i];
      }
      if i :| 0 <= i < |items| && items[i].IsOn() && IsMet(items[i], chain) {
        assert i > 0 ==> items[i] == rest[i - 1];
      }
    }
  }

  // ----- claims

  ghost predicate Claims(item: Item, oid: Bytes) {
    item.IsOn() && oid in item.Chosen().VerifyingCriticalExtensions()
  }

  /** A policy! block understands what some item that is on understands. */
  lemma {:induction false} AllOfClaims(items: seq<Item>, oid: Bytes)
    requires items != []
    ensures oid in AllOf(items).VerifyingCriticalExtensions()
      <==> exists i :: 0 <= i < |items| && Claims(items[i], oid)
  {
    if |items| > 1 {
      var rest := items[1..];
      AllOfClaims(rest, oid);
      if i :| 0 <= i < |rest| && Claims(rest[i], oid) {
        assert items[i + 1] == rest[i];
      }
      if i :| 0 <= i < |items| && Claims(items[i], oid) {
        assert i > 0 ==> items[i] == rest[i - 1];
      }
    }
  }

  /** A one_of! block understands what every item understands, and items that are off understand nothing. */
  lemma {:induction false} OneOfClaims(items: seq<Item>, oid: Bytes)
    requires items != []
    ensures oid in OneOf(items).VerifyingCriticalExtensions()
      <==> forall i :: 0 <= i < |items| ==> Claims(items[i], oid)
  {
    if |items| > 1 {
      var rest := items[1..];
      OneOfClaims(rest, oid);
      if forall i :: 0 <= i < |rest| ==> Claims(rest[i], oid) {
        forall i | 1 <= i < |items| ensures Claims(items[i], oid) {
          assert items[i] == rest[i - 1];
        }
      }
      if forall i :: 0 <= i < |items| ==> Claims(items[i], oid) {
        forall i | 0 <= i < |rest| ensures Claims(rest[i], oid) {
          assert items[i + 1] == rest[i];
        }
      }
    }
  }
}
