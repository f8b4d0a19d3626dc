/** Octets, octet strings and the few ASCII constants the validator compares against. */
module Bytes {
  type Byte = bv8
  type Bytes = seq<Byte>

  const PERIOD: Byte := 0x2E
  const ASTERISK: Byte := 0x2A
  const HYPHEN: Byte := 0x2D
  const UNDERSCORE: Byte := 0x5F

  /** The octet of this value. */
  function ByteOf(n: nat): (b: Byte)
    requires n < 256
    ensures b as nat == n
  {
    if n == 0 then 0
    else
      Increment(ByteOf(n - 1));
      ByteOf(n - 1) + 1
  }

  lemma Increment(b: Byte)
    ensures b < 255 ==> (b + 1) as nat == b as nat + 1
  {
  }

  lemma SameOctet(x: Byte, y: Byte)
    ensures x == y <==> x as nat == y as nat
  {
  }

  predicate IsDigit(b: Byte) { 0x30 <= b <= 0x39 }

  predicate IsUpper(b: Byte) { 0x41 <= b <= 0x5A }

  predicate IsLower(b: Byte) { 0x61 <= b <= 0x7A }

  predicate IsLetter(b: Byte) { IsUpper(b) || IsLower(b) }

  /** ASCII case folding of one octet. */
  function FoldByte(b: Byte): Byte {
    if IsUpper(b) then b + 0x20 else b
  }

  /** ASCII case folding of an octet string. */
  function Fold(s: Bytes): (f: Bytes)
    ensures |f| == |s|
    ensures forall i :: 0 <= i < |s| ==> f[i] == FoldByte(s[i])
  {
    seq(|s|, i requires 0 <= i < |s| => FoldByte(s[i]))
  }

  /** The index of the first occurrence of `b`, or |s| when there is none. */
  function IndexOf(s: Bytes, b: Byte): (k: nat)
    ensures k <= |s|
    ensures forall i :: 0 <= i < k ==> s[i] != b
    ensures k < |s| ==> s[k] == b
  {
    if s == [] || s[0] == b then 0 else 1 + IndexOf(s[1..], b)
  }

  /** The index just after the last occurrence of `b`, or 0 when there is none. */
  function AfterLast(s: Bytes, b: Byte): (k: nat)
    ensures k <= |s|
    ensures forall i :: k <= i < |s| ==> s[i] != b
    ensures k > 0 ==> s[k - 1] == b
  {
    if s == [] then 0
    else if s[|s| - 1] == b then |s|
    else AfterLast(s[..|s| - 1], b)
  }

  lemma FoldIdempotent(a: Bytes)
    ensures Fold(Fold(a)) == Fold(a)
  {
  }
}
