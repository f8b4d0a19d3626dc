/** iPAddress name constraints (x509-validator/src/rfc5280/ip_constraints.rs). */
module IpConstraints {
  import opened Bytes

  // ----- the code's own bit tests

  /** How many of the leading bits of `b` are zero. */
  function LeadingZeros(b: Byte): (n: nat)
    ensures n <= 8
  {
    if b & 0x80 != 0 then 0
    else if b & 0x40 != 0 then 1
    else if b & 0x20 != 0 then 2
    else if b & 0x10 != 0 then 3
    else if b & 0x08 != 0 then 4
    else if b & 0x04 != 0 then 5
    else if b & 0x02 != 0 then 6
    else if b & 0x01 != 0 then 7
    else 8
  }

  /** The position of the first byte that is not all ones, or |mask|. */
  function FirstNotFull(mask: Bytes): (k: nat)
    ensures k <= |mask|
    ensures forall i :: 0 <= i < k ==> mask[i] == 0xFF
    ensures k < |mask| ==> mask[k] != 0xFF
  {
    if mask == [] || mask[0] != 0xFF then 0 else 1 + FirstNotFull(mask[1..])
  }

  predicate IsValidCidrMask(mask: Bytes) {
    var first := FirstNotFull(mask);
    if first == |mask| then true
    else
      var byte := mask[first];
      var leadingOnes := LeadingZeros(!byte);
      if leadingOnes < 8 && (byte << leadingOnes) != 0 then false
      else forall i :: first + 1 <= i < |mask| ==> mask[i] == 0
  }

  predicate AgreeUnder(mask: Byte, a: Byte, b: Byte) {
    a & mask == b & mask
  }

  ghost predicate AddressIsInSubnet(address: Bytes, base: Bytes, mask: Bytes)
    requires |address| == |base| == |mask|
  {
    IsValidCidrMask(mask)
    && forall i :: 0 <= i < |mask| ==> AgreeUnder(mask[i], address[i], base[i])
  }

  /** The loop with its early exits. */
  method CheckAddressIsInSubnet(address: Bytes, subnet: Bytes) returns (inside: bool)
    requires |subnet| == 2 * |address|
    ensures inside == AddressIsInSubnet(address, subnet[..|address|], subnet[|address|..])
  {
    var half := |subnet| / 2;
    assert half == |address|;
    var base, mask := subnet[..half], subnet[half..];
    if !IsValidCidrMask(mask) {
      return false;
    }
    for i := 0 to |address|
      invariant forall k :: 0 <= k < i ==> AgreeUnder(mask[k], address[k], base[k])
    {
      if !AgreeUnder(mask[i], address[i], base[i]) {
        return false;
      }
    }
    return true;
  }

  ghost predicate IpAddressMatchesConstraint(address: Bytes, constraint: Bytes) {
    match (|address|, |constraint|)
    case (4, 8) => AddressIsInSubnet(address, constraint[..4], constraint[4..])
    case (16, 32) => AddressIsInSubnet(address, constraint[..16], constraint[16..])
    case _ => false
  }

  method CheckIpAddressMatchesConstraint(address: Bytes, constraint: Bytes) returns (matched: bool)
    ensures matched == IpAddressMatchesConstraint(address, constraint)
  {
    match (|address|, |constraint|) {
      case (4, 8) => matched := CheckAddressIsInSubnet(address, constraint);
      case (16, 32) => matched := CheckAddressIsInSubnet(address, constraint);
      case _ => matched := false;
    }
  }

  // ----- what they mean: prefixes of big-endian integers

  ghost function Pow2(n: nat): (p: nat)
    ensures p > 0
  {
    if n == 0 then 1 else 2 * Pow2(n - 1)
  }

  /** The octets read as one big-endian integer. */
  ghost function Value(s: Bytes): nat {
    if s == [] then 0 else 256 * Value(s[..|s| - 1]) + s[|s| - 1] as nat
  }

  /** The j-th bit of the octets, counting from the most significant. */
  ghost predicate Bit(s: Bytes, j: nat)
    requires j < 8 * |s|
  {
    BitOf(s[j / 8], j % 8)
  }

  /** The mask is p one bits followed by zero bits. */
  ghost predicate IsPrefixMask(mask: Bytes, p: nat) {
    p <= 8 * |mask| && forall j :: 0 <= j < 8 * |mask| ==> (Bit(mask, j) <==> j < p)
  }

  /** The octet whose top k bits are ones. */
  function TopOnes(k: int): Byte {
    if k <= 0 then 0x00
    else if k == 1 then 0x80
    else if k == 2 then 0xC0
    else if k == 3 then 0xE0
    else if k == 4 then 0xF0
    else if k == 5 then 0xF8
    else if k == 6 then 0xFC
    else if k == 7 then 0xFE
    else 0xFF
  }

  ghost predicate BitOf(b: Byte, t: nat)
    requires t < 8
  {
    (b >> (7 - t)) & 1 == 1
  }

  lemma TopOnesBits(b: Byte, k: int)
    ensures b == TopOnes(k) <==> forall t :: 0 <= t < 8 ==> (BitOf(b, t) <==> t < k)
  {
    assert BitOf(b, 0) <==> b & 0x80 != 0;
    assert BitOf(b, 1) <==> b & 0x40 != 0;
    assert BitOf(b, 2) <==> b & 0x20 != 0;
    assert BitOf(b, 3) <==> b & 0x10 != 0;
    assert BitOf(b, 4) <==> b & 0x08 != 0;
    assert BitOf(b, 5) <==> b & 0x04 != 0;
    assert BitOf(b, 6) <==> b & 0x02 != 0;
    assert BitOf(b, 7) <==> b & 0x01 != 0;
  }

  /** The address and the base agree on their first p bits. */
  ghost predicate SharesPrefix(address: Bytes, base: Bytes, p: nat)
    requires |address| == |base| && p <= 8 * |base|
  {
    Value(address) / Pow2(8 * |base| - p) == Value(base) / Pow2(8 * |base| - p)
  }

  // ----- masks

  /** The octets of a mask of p leading ones. */
  ghost predicate HasPrefixBytes(mask: Bytes, p: nat) {
    p <= 8 * |mask| && forall i :: 0 <= i < |mask| ==> mask[i] == TopOnes(p - 8 * i)
  }

  lemma PrefixMaskBytes(mask: Bytes, p: nat)
    ensures IsPrefixMask(mask, p) <==> HasPrefixBytes(mask, p)
  {
    if IsPrefixMask(mask, p) {
      forall i | 0 <= i < |mask| ensures mask[i] == TopOnes(p - 8 * i) {
        forall t | 0 <= t < 8 ensures BitOf(mask[i], t) <==> t < p - 8 * i {
          assert Bit(mask, 8 * i + t) <==> 8 * i + t < p;
        }
        TopOnesBits(mask[i], p - 8 * i);
      }
    }
    if HasPrefixBytes(mask, p) {
      forall j | 0 <= j < 8 * |mask| ensures Bit(mask, j) <==> j < p {
        assert mask[j / 8] == TopOnes(p - 8 * (j / 8));
        TopOnesBits(mask[j / 8], p - 8 * (j / 8));
        assert BitOf(mask[j / 8], j % 8) <==> j % 8 < p - 8 * (j / 8);
      }
    }
  }

  lemma ByteIsTopOnes(b: Byte)
    requires b != 0xFF
    ensures LeadingZeros(!b) < 8
    ensures b << LeadingZeros(!b) == 0 <==> b == TopOnes(LeadingZeros(!b))
  {
  }

  lemma TopOnesIsByte(k: nat)
    requires k < 8
    ensures TopOnes(k) != 0xFF && LeadingZeros(!TopOnes(k)) == k
  {
    if k < 4 {
      assert k == 0 || k == 1 || k == 2 || k == 3;
    } else {
      assert k == 4 || k == 5 || k == 6 || k == 7;
    }
  }

  /** The mask test accepts exactly the masks of leading ones followed by zeros. */
  lemma ValidMasksArePrefixes(mask: Bytes)
    ensures IsValidCidrMask(mask) <==> exists p: nat :: IsPrefixMask(mask, p)
  {
    var first := FirstNotFull(mask);
    if IsValidCidrMask(mask) {
      var p := 8 * first;
      if first < |mask| {
        ByteIsTopOnes(mask[first]);
        p := p + LeadingZeros(!mask[first]);
      }
      assert HasPrefixBytes(mask, p);
      PrefixMaskBytes(mask, p);
    }
    if p: nat :| IsPrefixMask(mask, p) {
      PrefixMaskBytes(mask, p);
      if first < |mask| {
        assert mask[first] == TopOnes(p - 8 * first);
        if first > 0 {
          assert mask[first - 1] == TopOnes(p - 8 * (first - 1));
        }
        assert 8 * first <= p < 8 * first + 8;
        TopOnesIsByte(p - 8 * first);
        ByteIsTopOnes(mask[first]);
      }
    }
  }

  // ----- quotients

  lemma QuotientUnique(x: nat, d: nat, q: nat, r: nat)
    requires d > 0 && x == q * d + r && r < d
    ensures x / d == q
  {
    var q', r' := x / d, x % d;
    assert (q - q') * d == r' - r;
    if q != q' {
      NonZeroMultiple(q - q', d);
    }
  }

  lemma ProductIsNonNegative(k: nat, d: nat)
    ensures k * d >= 0
  {
  }

  lemma NonZeroMultiple(k: int, d: int)
    requires k != 0 && d > 0
    ensures k * d >= d || k * d <= -d
  {
    if k > 0 {
      ProductIsNonNegative(k - 1, d);
      assert k * d == (k - 1) * d + d;
    } else {
      ProductIsNonNegative(-k - 1, d);
      assert k * d == -((-k - 1) * d) - d;
    }
  }

  /** Dividing by 256 d drops the last octet and divides the rest by d. */
  lemma QuotientDropsOctet(x: nat, b: nat, d: nat)
    requires b < 256 && d > 0
    ensures (256 * x + b) / (256 * d) == x / d
  {
    var q, r := x / d, x % d;
    assert x == q * d + r;
    assert 256 * (q * d) == q * (256 * d);
    QuotientUnique(256 * x + b, 256 * d, q, 256 * r + b);
  }

  lemma Pow2Octet(n: nat)
    ensures Pow2(n + 8) == 256 * Pow2(n)
  {
    assert Pow2(n + 8) == 2 * Pow2(n + 7) == 4 * Pow2(n + 6) == 8 * Pow2(n + 5) == 16 * Pow2(n + 4);
    assert Pow2(n + 4) == 2 * Pow2(n + 3) == 4 * Pow2(n + 2) == 8 * Pow2(n + 1) == 16 * Pow2(n);
  }

  lemma SmallPow2(q: nat)
    requires q <= 8
    ensures Pow2(q) == if q == 0 then 1 else if q == 1 then 2 else if q == 2 then 4 else if q == 3 then 8
      else if q == 4 then 16 else if q == 5 then 32 else if q == 6 then 64 else if q == 7 then 128 else 256
  {
    if q > 0 {
      SmallPow2(q - 1);
    }
  }

  /** Within one octet, agreeing under k leading ones is having equal quotients by the rest. */
  lemma OctetsAgree(a: Byte, b: Byte, q: nat)
    requires q <= 8
    ensures AgreeUnder(TopOnes(8 - q), a, b) <==> a as nat / Pow2(q) == b as nat / Pow2(q)
  {
    MaskIsShift(a, b, q);
    ShiftIsQuotient(a, q);
    ShiftIsQuotient(b, q);
    SameOctet(Shifted(a, q), Shifted(b, q));
  }

  lemma HalfOctet(a: Byte)
    ensures (a >> 1) as nat == a as nat / 2
  {
  }

  ghost function Shifted(a: Byte, s: nat): Byte {
    if s == 0 then a else Shifted(a, s - 1) >> 1
  }

  /** Shifting right is dividing. */
  lemma {:induction false} ShiftIsQuotient(a: Byte, s: nat)
    ensures Shifted(a, s) as nat == a as nat / Pow2(s)
  {
    if s == 0 {
      assert Pow2(0) == 1;
    } else {
      ShiftIsQuotient(a, s - 1);
      HalfOctet(Shifted(a, s - 1));
      HalvingQuotient(a as nat, Pow2(s - 1));
    }
  }

  lemma ShiftedLow(a: Byte)
    ensures Shifted(a, 0) == a && Shifted(a, 1) == a >> 1 && Shifted(a, 2) == a >> 2
    ensures Shifted(a, 3) == a >> 3 && Shifted(a, 4) == a >> 4
  {
    assert Shifted(a, 1) == Shifted(a, 0) >> 1;
    assert Shifted(a, 2) == Shifted(a, 1) >> 1;
    assert Shifted(a, 3) == Shifted(a, 2) >> 1;
    assert Shifted(a, 4) == Shifted(a, 3) >> 1;
  }

  lemma ShiftedHigh(a: Byte)
    ensures Shifted(a, 5) == a >> 5 && Shifted(a, 6) == a >> 6
    ensures Shifted(a, 7) == a >> 7 && Shifted(a, 8) == 0
  {
    ShiftedLow(a);
    assert Shifted(a, 5) == Shifted(a, 4) >> 1;
    assert Shifted(a, 6) == Shifted(a, 5) >> 1;
    assert Shifted(a, 7) == Shifted(a, 6) >> 1;
    assert Shifted(a, 8) == Shifted(a, 7) >> 1;
  }

  lemma MaskLow(a: Byte, b: Byte)
    ensures AgreeUnder(0xFF, a, b) <==> a == b
    ensures AgreeUnder(0xFE, a, b) <==> a >> 1 == b >> 1
    ensures AgreeUnder(0xFC, a, b) <==> a >> 2 == b >> 2
    ensures AgreeUnder(0xF8, a, b) <==> a >> 3 == b >> 3
    ensures AgreeUnder(0xF0, a, b) <==> a >> 4 == b >> 4
  {
  }

  lemma MaskHigh(a: Byte, b: Byte)
    ensures AgreeUnder(0xE0, a, b) <==> a >> 5 == b >> 5
    ensures AgreeUnder(0xC0, a, b) <==> a >> 6 == b >> 6
    ensures AgreeUnder(0x80, a, b) <==> a >> 7 == b >> 7
    ensures AgreeUnder(0x00, a, b)
  {
  }

  lemma MaskIsShiftLow(a: Byte, b: Byte, s: nat)
    requires s <= 2
    ensures AgreeUnder(TopOnes(8 - s), a, b) <==> Shifted(a, s) == Shifted(b, s)
  {
    ShiftedLow(a);
    ShiftedLow(b);
    MaskLow(a, b);
    if s == 0 {
      assert TopOnes(8 - s) == 0xFF;
    } else if s == 1 {
      assert TopOnes(8 - s) == 0xFE;
    } else {
      assert TopOnes(8 - s) == 0xFC;
    }
  }

  lemma MaskIsShiftMiddle(a: Byte, b: Byte, s: nat)
    requires 3 <= s <= 4
    ensures AgreeUnder(TopOnes(8 - s), a, b) <==> Shifted(a, s) == Shifted(b, s)
  {
    ShiftedLow(a);
    ShiftedLow(b);
    MaskLow(a, b);
    if s == 3 {
      assert TopOnes(8 - s) == 0xF8;
    } else {
      assert TopOnes(8 - s) == 0xF0;
    }
  }

  lemma MaskIsShiftHigh(a: Byte, b: Byte, s: nat)
    requires 5 <= s <= 8
    ensures AgreeUnder(TopOnes(8 - s), a, b) <==> Shifted(a, s) == Shifted(b, s)
  {
    ShiftedHigh(a);
    ShiftedHigh(b);
    MaskHigh(a, b);
    if s == 5 {
      assert TopOnes(8 - s) == 0xE0;
    } else if s == 6 {
      assert TopOnes(8 - s) == 0xC0;
    } else if s == 7 {
      assert TopOnes(8 - s) == 0x80;
    } else {
      assert TopOnes(8 - s) == 0x00;
    }
  }

  lemma MaskIsShift(a: Byte, b: Byte, s: nat)
    requires s <= 8
    ensures AgreeUnder(TopOnes(8 - s), a, b) <==> Shifted(a, s) == Shifted(b, s)
  {
    if s <= 2 {
      MaskIsShiftLow(a, b, s);
    } else if s <= 4 {
      MaskIsShiftMiddle(a, b, s);
    } else {
      MaskIsShiftHigh(a, b, s);
    }
  }

  lemma QuotientSplits(x: nat, a: nat, q: nat)
    requires q <= 8 && a < 256
    ensures (256 * x + a) / Pow2(q) == Pow2(8 - q) * x + a / Pow2(q)
    ensures 0 <= a / Pow2(q) < Pow2(8 - q)
  {
    var d, rest := Pow2(q), Pow2(8 - q);
    SmallPow2(q);
    SmallPow2(8 - q);
    Complement(q);
    var t, r := a / d, a % d;
    assert a == t * d + r;
    Distribute(rest, d, x, t);
    QuotientUnique(256 * x + a, d, rest * x + t, r);
    SmallQuotient(a, d, rest);
  }

  lemma Complement(q: nat)
    requires q <= 8
    ensures Pow2(8 - q) * Pow2(q) == 256
  {
    SmallPow2(q);
    SmallPow2(8 - q);
  }

  lemma SmallQuotient(a: nat, d: nat, rest: nat)
    requires d > 0 && a < rest * d
    ensures a / d < rest
  {
    var t, r := a / d, a % d;
    assert a == t * d + r;
    if t != rest {
      NonZeroMultiple(t - rest, d);
      assert t * d - rest * d == (t - rest) * d;
    }
  }

  lemma Distribute(rest: nat, d: nat, x: nat, t: nat)
    ensures (rest * x + t) * d == (rest * d) * x + t * d
  {
    assert (rest * x) * d == (rest * d) * x;
  }

  /** A number of the form n x + t with t < n determines x and t. */
  lemma MixedRadix(n: nat, x: nat, t: int, y: nat, u: int)
    requires 0 <= t < n && 0 <= u < n
    ensures n * x + t == n * y + u <==> x == y && t == u
  {
    if x != y {
      NonZeroMultiple(x - y, n);
      assert n * x - n * y == (x - y) * n;
    }
  }

  lemma LastOctet(x: nat, a: Byte, y: nat, b: Byte, q: nat)
    requires q < 8
    ensures x == y && AgreeUnder(TopOnes(8 - q), a, b)
      <==> (256 * x + a as nat) / Pow2(q) == (256 * y + b as nat) / Pow2(q)
  {
    QuotientSplits(x, a as nat, q);
    QuotientSplits(y, b as nat, q);
    MixedRadix(Pow2(8 - q), x, a as nat / Pow2(q), y, b as nat / Pow2(q));
    OctetsAgree(a, b, q);
  }

  lemma EarlierOctets(x: nat, a: nat, y: nat, b: nat, q: nat)
    requires q >= 8 && a < 256 && b < 256
    ensures x / Pow2(q - 8) == y / Pow2(q - 8) <==> (256 * x + a) / Pow2(q) == (256 * y + b) / Pow2(q)
  {
    Pow2Octet(q - 8);
    QuotientDropsOctet(x, a, Pow2(q - 8));
    QuotientDropsOctet(y, b, Pow2(q - 8));
  }

  /** Dropping the last octet from under the mask. */
  lemma SharesShorterPrefix(address: Bytes, base: Bytes, p: nat)
    requires |address| == |base| > 0 && p <= 8 * (|base| - 1)
    ensures var m := |base| - 1;
      SharesPrefix(address, base, p) <==> SharesPrefix(address[..m], base[..m], p)
  {
    var m, q := |base| - 1, 8 * |base| - p;
    EarlierOctets(Value(address[..m]), address[m] as nat, Value(base[..m]), base[m] as nat, q);
  }

  lemma SharesLongerPrefix(address: Bytes, base: Bytes, p: nat)
    requires |address| == |base| > 0 && 8 * (|base| - 1) < p <= 8 * |base|
    ensures var m := |base| - 1;
      (SharesPrefix(address, base, p)
       <==> (SharesPrefix(address[..m], base[..m], 8 * m) && AgreeUnder(TopOnes(p - 8 * m), address[m], base[m])))
  {
    var m, q := |base| - 1, 8 * |base| - p;
    assert Pow2(0) == 1;
    LastOctet(Value(address[..m]), address[m], Value(base[..m]), base[m], q);
  }

  ghost predicate AllAgree(mask: Bytes, address: Bytes, base: Bytes)
    requires |address| == |base| == |mask|
  {
    forall i :: 0 <= i < |mask| ==> AgreeUnder(mask[i], address[i], base[i])
  }

  lemma AllAgreeLast(mask: Bytes, address: Bytes, base: Bytes)
    requires |address| == |base| == |mask| > 0
    ensures var m := |mask| - 1;
      (AllAgree(mask, address, base)
       <==> (AllAgree(mask[..m], address[..m], base[..m]) && AgreeUnder(mask[m], address[m], base[m])))
  {
    var m := |mask| - 1;
    if AllAgree(mask[..m], address[..m], base[..m]) && AgreeUnder(mask[m], address[m], base[m]) {
      forall i | 0 <= i < |mask| ensures AgreeUnder(mask[i], address[i], base[i]) {
        assert i < m ==> AgreeUnder(mask[..m][i], address[..m][i], base[..m][i]);
      }
    }
    if AllAgree(mask, address, base) {
      forall i | 0 <= i < m ensures AgreeUnder(mask[..m][i], address[..m][i], base[..m][i]) {
        assert AgreeUnder(mask[i], address[i], base[i]);
      }
    }
  }

  lemma {:induction false} AgreeingIsSameQuotient(address: Bytes, base: Bytes, mask: Bytes, p: nat)
    requires |address| == |base| == |mask| && HasPrefixBytes(mask, p)
    ensures AllAgree(mask, address, base) <==> SharesPrefix(address, base, p)
    decreases |mask|
  {
    if mask != [] {
      var m, q := |mask| - 1, 8 * |mask| - p;
      var address', base', mask' := address[..m], base[..m], mask[..m];
      AllAgreeLast(mask, address, base);
      if q >= 8 {
        AgreeingIsSameQuotient(address', base', mask', p);
        SharesShorterPrefix(address, base, p);
        assert AgreeUnder(0, address[m], base[m]);
      } else {
        AgreeingIsSameQuotient(address', base', mask', 8 * m);
        SharesLongerPrefix(address, base, p);
      }
    }
  }

  /** Subnet membership is CIDR membership, for addresses of any length. */
  lemma SubnetIsCidr(address: Bytes, base: Bytes, mask: Bytes)
    requires |address| == |base| == |mask|
    ensures AddressIsInSubnet(address, base, mask)
      <==> exists p: nat :: IsPrefixMask(mask, p) && SharesPrefix(address, base, p)
  {
    ValidMasksArePrefixes(mask);
    forall p: nat | IsPrefixMask(mask, p)
      ensures AddressIsInSubnet(address, base, mask) <==> SharesPrefix(address, base, p)
    {
      PrefixMaskBytes(mask, p);
      AgreeingIsSameQuotient(address, base, mask, p);
    }
  }

  ghost predicate IsInCidrBlock(address: Bytes, constraint: Bytes) {
    exists base, mask, p: nat ::
      && constraint == base + mask && |base| == |mask| == |address|
      && IsPrefixMask(mask, p) && SharesPrefix(address, base, p)
  }

  /** A constraint is a subnet base followed by its mask, for an address of the same family. */
  lemma IpConstraintIsCidr(address: Bytes, constraint: Bytes)
    ensures IpAddressMatchesConstraint(address, constraint)
      <==> (|address| == 4 || |address| == 16) && IsInCidrBlock(address, constraint)
  {
    var n := |address|;
    if |constraint| == 2 * n {
      SplitConstraint(constraint, n);
      SubnetIsCidr(address, constraint[..n], constraint[n..]);
    }
    forall base, mask | constraint == base + mask && |base| == |mask| == n
      ensures |constraint| == 2 * n && base == constraint[..n] && mask == constraint[n..]
    {
    }
  }

  lemma SplitConstraint(constraint: Bytes, n: nat)
    requires |constraint| == 2 * n
    ensures constraint == constraint[..n] + constraint[n..] && |constraint[..n]| == |constraint[n..]| == n
  {
  }

  lemma LongerPrefixDiffers(mask: Bytes, p: nat, longer: nat)
    requires IsPrefixMask(mask, p) && p < longer <= 8 * |mask|
    ensures !IsPrefixMask(mask, longer)
  {
    assert !Bit(mask, p);
  }

  lemma PrefixMaskIsUnique(mask: Bytes, p: nat, r: nat)
    requires IsPrefixMask(mask, p) && IsPrefixMask(mask, r)
    ensures p == r
  {
    if p < r {
      LongerPrefixDiffers(mask, p, r);
    } else if r < p {
      LongerPrefixDiffers(mask, r, p);
    }
  }

  lemma MembershipByPrefix(address: Bytes, base: Bytes, mask: Bytes, p: nat)
    requires |address| == |base| == |mask| && IsPrefixMask(mask, p)
    ensures AddressIsInSubnet(address, base, mask) <==> SharesPrefix(address, base, p)
  {
    SubnetIsCidr(address, base, mask);
    forall r: nat | IsPrefixMask(mask, r) ensures r == p {
      PrefixMaskIsUnique(mask, p, r);
    }
  }

  lemma {:induction false} QuotientOfQuotient(x: nat, low: nat, high: nat)
    requires low <= high
    ensures x / Pow2(high) == x / Pow2(low) / Pow2(high - low)
    decreases high - low
  {
    if low < high {
      QuotientOfQuotient(x, low, high - 1);
      HalvingQuotient(x, Pow2(high - 1));
      HalvingQuotient(x / Pow2(low), Pow2(high - 1 - low));
    } else {
      assert Pow2(0) == 1;
    }
  }

  lemma HalvingQuotient(x: nat, d: nat)
    requires d > 0
    ensures x / (2 * d) == x / d / 2
  {
    var q, r := x / d, x % d;
    assert x == q * d + r;
    var h, o := q / 2, q % 2;
    assert q * d == h * (2 * d) + o * d by {
      assert q == 2 * h + o;
    }
    assert o * d + r < 2 * d by {
      assert o == 0 || o == 1;
    }
    QuotientUnique(x, 2 * d, h, o * d + r);
  }

  /** Two valid subnets with a common address are nested: the one with the longer prefix lies in the other. */
  lemma SubnetsAreNestedOrDisjoint(base1: Bytes, mask1: Bytes, p1: nat, base2: Bytes, mask2: Bytes, p2: nat,
                                   common: Bytes, address: Bytes)
    requires |base1| == |mask1| == |base2| == |mask2| == |common| == |address|
    requires IsPrefixMask(mask1, p1) && IsPrefixMask(mask2, p2) && p1 <= p2
    requires AddressIsInSubnet(common, base1, mask1) && AddressIsInSubnet(common, base2, mask2)
    requires AddressIsInSubnet(address, base2, mask2)
    ensures AddressIsInSubnet(address, base1, mask1)
  {
    var low, high := 8 * |base1| - p2, 8 * |base1| - p1;
    MembershipByPrefix(common, base1, mask1, p1);
    MembershipByPrefix(common, base2, mask2, p2);
    MembershipByPrefix(address, base2, mask2, p2);
    MembershipByPrefix(address, base1, mask1, p1);
    QuotientOfQuotient(Value(address), low, high);
    QuotientOfQuotient(Value(common), low, high);
  }

  /** The all-zero mask is the /0 prefix: every address is in its subnet. */
  lemma ZeroPrefixCoversEverything(address: Bytes, base: Bytes, mask: Bytes)
    requires |address| == |base| == |mask|
    requires forall i :: 0 <= i < |mask| ==> mask[i] == 0
    ensures AddressIsInSubnet(address, base, mask)
  {
    forall i | 0 <= i < |mask| ensures AgreeUnder(mask[i], address[i], base[i]) {
      assert AgreeUnder(0, address[i], base[i]);
    }
    assert HasPrefixBytes(mask, 0);
    PrefixMaskBytes(mask, 0);
    ValidMasksArePrefixes(mask);
  }
}
