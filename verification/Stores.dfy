/** Certificate stores indexed by subject (x509-validator/src/store.rs). */
module Stores {
  import opened Bytes
  import opened Certificates
  import opened Sequences

  /** The certificates of a plain list with the given subject, in list order. */
  function WithSubject(certificates: seq<Certificate>, subject: Bytes): (found: seq<Certificate>)
    ensures forall c :: c in found <==> c in certificates && c.subject == subject
    ensures |found| <= |certificates|
  {
    if certificates == [] then []
    else
      var last := certificates[|certificates| - 1];
      WithSubject(certificates[..|certificates| - 1], subject) + (if last.subject == subject then [last] else [])
  }

  lemma WithSubjectAppend(certificates: seq<Certificate>, c: Certificate, subject: Bytes)
    ensures WithSubject(certificates + [c], subject)
      == if c.subject == subject then WithSubject(certificates, subject) + [c] else WithSubject(certificates, subject)
  {
    assert (certificates + [c])[..|certificates|] == certificates;
    NothingAdded(WithSubject(certificates, subject));
  }

  /** What one certificate contributes to a lookup. */
  lemma WithSubjectOne(c: Certificate, subject: Bytes)
    ensures WithSubject([c], subject) == if c.subject == subject then [c] else []
  {
    WithSubjectAppend([], c, subject);
    assert [] + [c] == [c];
  }

  /** What is appended later is found later. */
  lemma {:induction false} WithSubjectConcat(a: seq<Certificate>, b: seq<Certificate>, subject: Bytes)
    ensures WithSubject(a + b, subject) == WithSubject(a, subject) + WithSubject(b, subject)
  {
    if b == [] {
      assert a + b == a;
      NothingAdded(WithSubject(a, subject));
    } else {
      var init, last := b[..|b| - 1], b[|b| - 1];
      WithSubjectConcat(a, init, subject);
      PopLast(b);
      WithSubjectAppend(init, last, subject);
      Reassociate(a, init, [last]);
      WithSubjectAppend(a + init, last, subject);
      Reassociate(WithSubject(a, subject), WithSubject(init, subject), [last]);
    }
  }

  lemma TakeOneMore(certificates: seq<Certificate>, i: nat)
    requires i < |certificates|
    ensures certificates[..i + 1] == certificates[..i] + [certificates[i]]
    ensures i + 1 == |certificates| ==> certificates[..i + 1] == certificates
  {
  }

  class CertificateStore {
    var bySubject: map<Bytes, seq<Certificate>>
    /** Every certificate appended so far, oldest first. */
    ghost var contents: seq<Certificate>

    ghost predicate Valid()
      reads this
    {
      && (forall k :: k in bySubject ==> bySubject[k] == WithSubject(contents, k))
      && (forall k :: k !in bySubject ==> WithSubject(contents, k) == [])
    }

    constructor ()
      ensures Valid()
      ensures contents == []
    {
      bySubject := map[];
      contents := [];
    }

    method Append(certificate: Certificate)
      requires Valid()
      modifies this
      ensures Valid()
      ensures contents == old(contents) + [certificate]
      ensures FindBySubject(certificate.subject) == old(FindBySubject(certificate.subject)) + [certificate]
      ensures forall k :: k != certificate.subject ==> FindBySubject(k) == old(FindBySubject(k))
    {
      var key := certificate.subject;
      var bucket := if key in bySubject then bySubject[key] else [];
      bySubject := bySubject[key := bucket + [certificate]];
      contents := contents + [certificate];
      forall k
        ensures WithSubject(contents, k)
          == if certificate.subject == k then WithSubject(old(contents), k) + [certificate]
             else WithSubject(old(contents), k)
      {
        WithSubjectAppend(old(contents), certificate, k);
      }
    }

    static method FromIter(certificates: seq<Certificate>) returns (store: CertificateStore)
      ensures fresh(store)
      ensures store.Valid()
      ensures store.contents == certificates
    {
      store := new CertificateStore();
      for i := 0 to |certificates|
        invariant fresh(store) && store.Valid()
        invariant store.contents == certificates[..i]
      {
        TakeOneMore(certificates, i);
        store.Append(certificates[i]);
      }
    }

    /** Looking a subject up in the index gives what filtering the appended list gives. */
    function FindBySubject(subjectKey: Bytes): (found: seq<Certificate>)
      requires Valid()
      reads this
      ensures found == WithSubject(contents, subjectKey)
    {
      if subjectKey in bySubject then bySubject[subjectKey] else []
    }
  }
}
