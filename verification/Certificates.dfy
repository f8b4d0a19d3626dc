/** Certificates as the validator sees them after decoding (x509-validator/src/certificate.rs). */
module Certificates {
  import opened Wrappers
  import opened Bytes

  /** An extension the decoder may find missing, unreadable or well formed. */
  datatype Decoded<+T> = Absent | Malformed | Present(value: T)

  datatype Extension = Extension(oid: Bytes, critical: bool)

  datatype GeneralName =
    | OtherName(value: Bytes)
    | RFC822Name(value: Bytes)
    | DNSName(value: Bytes)
    | X400Address(value: Bytes)
    | DirectoryName(value: Bytes)
    | EDIPartyName(value: Bytes)
    | URI(value: Bytes)
    | IPAddress(value: Bytes)
    | RegisteredID(value: Bytes)
    | Invalid(value: Bytes)

  const U32_LIMIT: nat := 0x1_0000_0000

  type U32 = n: nat | n < U32_LIMIT

  datatype BasicConstraints = BasicConstraints(ca: bool, pathLength: Option<U32>)

  /** The bases of the permitted and excluded subtrees. */
  datatype NameConstraints = NameConstraints(
    permitted: Option<seq<GeneralName>>,
    excluded: Option<seq<GeneralName>>)

  /** The names are their raw DER bytes. */
  datatype Certificate = Certificate(
    isV1: bool,
    issuer: Bytes,
    subject: Bytes,
    publicKey: Bytes,
    extensions: seq<Extension>,
    subjectAltName: Decoded<seq<GeneralName>>,
    subjectKeyIdentifier: Option<Bytes>,
    authorityKeyIdentifier: Option<Bytes>,
    basicConstraints: Decoded<BasicConstraints>,
    nameConstraints: Decoded<NameConstraints>,
    commonNames: seq<Option<Bytes>>,
    tbs: Bytes,
    signatureAlgorithm: Bytes,
    signature: Bytes)
  {
    /** The subject alternative names, empty when the extension is absent or does not decode. */
    function SubjectAlternativeNames(): seq<GeneralName> {
      if subjectAltName.Present? then subjectAltName.value else []
    }

    /** What two certificates share when they denote the same logical certificate. */
    function Id(): Identity {
      Identity(subject, publicKey, SubjectAlternativeNames())
    }

    predicate HasSameIdentityAs(other: Certificate) {
      subject == other.subject
      && publicKey == other.publicKey
      && SubjectAlternativeNames() == other.SubjectAlternativeNames()
    }

    predicate IsSelfIssued() {
      issuer == subject
    }
  }

  datatype Identity = Identity(subject: Bytes, publicKey: Bytes, names: seq<GeneralName>)

  /** A certification path, leaf first. */
  type Chain = seq<Certificate>

  function Tip(chain: Chain): Certificate
    requires chain != []
  {
    chain[|chain| - 1]
  }

  function Identities(certificates: seq<Certificate>): set<Identity> {
    if certificates == [] then {}
    else
      var n := |certificates| - 1;
      Identities(certificates[..n]) + {certificates[n].Id()}
  }

  lemma IdentitiesAppend(certificates: seq<Certificate>, c: Certificate)
    ensures Identities(certificates + [c]) == Identities(certificates) + {c.Id()}
  {
    assert (certificates + [c])[..|certificates|] == certificates;
  }

  lemma {:induction false} IdentitiesInclude(certificates: seq<Certificate>, c: Certificate)
    requires c in certificates
    ensures c.Id() in Identities(certificates)
  {
    var n := |certificates| - 1;
    if certificates[n] != c {
      IdentitiesInclude(certificates[..n], c);
    }
  }

  lemma {:induction false} IdentityBearer(certificates: seq<Certificate>, id: Identity) returns (c: Certificate)
    requires id in Identities(certificates)
    ensures c in certificates && c.Id() == id
  {
    var n := |certificates| - 1;
    c := certificates[n];
    if c.Id() != id {
      c := IdentityBearer(certificates[..n], id);
    }
  }

  /** How many distinct identities outside `used` the certificates bear. */
  ghost function CountDistinct(certificates: seq<Certificate>, used: set<Identity>): nat {
    if certificates == [] then 0
    else
      var n := |certificates| - 1;
      var id := certificates[n].Id();
      CountDistinct(certificates[..n], used) + if id in used || id in Identities(certificates[..n]) then 0 else 1
  }

  lemma {:induction false} CountDistinctIsCardinality(certificates: seq<Certificate>, used: set<Identity>)
    ensures CountDistinct(certificates, used) == |Identities(certificates) - used|
  {
    if certificates == [] {
      assert Identities(certificates) - used == {};
    } else {
      var n := |certificates| - 1;
      var id := certificates[n].Id();
      CountDistinctIsCardinality(certificates[..n], used);
      if id in used || id in Identities(certificates[..n]) {
        assert Identities(certificates) - used == Identities(certificates[..n]) - used;
      } else {
        assert Identities(certificates) - used == (Identities(certificates[..n]) - used) + {id};
      }
    }
  }

  ghost predicate DistinctIdentities(chain: Chain) {
    forall i, j :: 0 <= i < j < |chain| ==> chain[i].Id() != chain[j].Id()
  }
}
