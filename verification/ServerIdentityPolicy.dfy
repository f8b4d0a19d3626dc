/** Matching a server's hostname or address against a certificate (x509-validator/src/server_identity_policy.rs). */
module ServerIdentityPolicy {
  import opened Wrappers
  import opened Bytes
  import opened Certificates
  import opened PolicyBuilder
  import opened LabelSplitting

  predicate IsDnsCharacter(b: Byte) {
    IsLetter(b) || IsDigit(b) || b == HYPHEN || b == PERIOD
  }

  ghost predicate AreDnsCharacters(s: Bytes) {
    forall i :: 0 <= i < |s| ==> IsDnsCharacter(s[i])
  }

  /** The position of the first period, if there is one. */
  ghost function FirstPeriod(s: Bytes): (k: Option<nat>)
    ensures k.Some? ==> k.value < |s| && s[k.value] == PERIOD
    ensures k.Some? ==> forall i :: 0 <= i < k.value ==> s[i] != PERIOD
    ensures k.None? ==> forall i :: 0 <= i < |s| ==> s[i] != PERIOD
  {
    if IndexOf(s, PERIOD) == |s| then None else Some(IndexOf(s, PERIOD))
  }

  lemma FirstPeriodUnique(s: Bytes, k: nat)
    requires k <= |s| && (forall i :: 0 <= i < k ==> s[i] != PERIOD) && (k < |s| ==> s[k] == PERIOD)
    ensures FirstPeriod(s) == if k < |s| then Some(k) else None
  {
    IndexOfUnique(s, PERIOD, k);
  }

  // ----- the server's hostname

  datatype PreparedServerHostname = PreparedServerHostname(bytes: Bytes, firstPeriodIndex: Option<nat>) {
    /** The stored index is the first period of the stored bytes. */
    ghost predicate Valid() {
      firstPeriodIndex == FirstPeriod(bytes)
    }
  }

  lemma SettingTheBitFolds(b: Byte)
    requires IsDnsCharacter(b)
    ensures b | 0x20 == FoldByte(b)
    ensures FoldByte(b) == PERIOD <==> b == PERIOD
  {
  }

  lemma FoldInit(s: Bytes, k: nat)
    requires k < |s|
    ensures Fold(s[..k]) + [FoldByte(s[k])] == Fold(s[..k + 1])
  {
  }

  /** Drops the last byte when it is a period; a period index that then falls outside is dropped as well. */
  function StripTrailingPeriod(value: Bytes, firstPeriodIndex: Option<nat>): PreparedServerHostname {
    var stripped := if value != [] && value[|value| - 1] == PERIOD then value[..|value| - 1] else value;
    var kept := if firstPeriodIndex.Some? && firstPeriodIndex.value >= |stripped| then None else firstPeriodIndex;
    PreparedServerHostname(stripped, kept)
  }

  lemma StrippedIsValid(hostname: Bytes)
    ensures var prepared := StripTrailingPeriod(Fold(hostname), FirstPeriod(Fold(hostname)));
      prepared.Valid() && prepared.bytes == Fold(Relative(hostname))
  {
    var f := Fold(hostname);
    var k := IndexOf(f, PERIOD);
    if hostname != [] {
      FoldKeepsPeriods(hostname[|hostname| - 1]);
      if hostname[|hostname| - 1] == PERIOD {
        var stripped := f[..|f| - 1];
        assert stripped == Fold(Relative(hostname));
        FirstPeriodUnique(stripped, if k < |stripped| then k else |stripped|);
      }
    }
  }

  method PrepareServerHostname(hostname: Bytes) returns (prepared: Option<PreparedServerHostname>)
    ensures prepared.Some? <==> AreDnsCharacters(hostname)
    ensures prepared.Some? <==> forall i :: 0 <= i < |hostname| ==>
      || 0x30 <= hostname[i] <= 0x39 || 0x41 <= hostname[i] <= 0x5A || 0x61 <= hostname[i] <= 0x7A
      || hostname[i] == 0x2D || hostname[i] == 0x2E
    ensures prepared.Some? ==> prepared.value.Valid() && prepared.value.bytes == Fold(Relative(hostname))
  {
    var firstPeriodIndex: Option<nat> := None;
    var value: Bytes := [];
    for i := 0 to |hostname|
      invariant forall k :: 0 <= k < i ==> IsDnsCharacter(hostname[k])
      invariant value == Fold(hostname[..i])
      invariant firstPeriodIndex == FirstPeriod(value)
    {
      var byte := hostname[i];
      if !IsDnsCharacter(byte) {
        return None;
      }
      SettingTheBitFolds(byte);
      FoldInit(hostname, i);
      FirstPeriodOfLonger(value, byte | 0x20);
      if firstPeriodIndex.None? && byte == PERIOD {
        firstPeriodIndex := Some(|value|);
      }
      value := value + [byte | 0x20];
    }
    assert hostname[..|hostname|] == hostname;
    StrippedIsValid(hostname);
    return Some(StripTrailingPeriod(value, firstPeriodIndex));
  }

  lemma FirstPeriodOfLonger(s: Bytes, b: Byte)
    ensures FirstPeriod(s + [b])
      == if FirstPeriod(s).None? && b == PERIOD then Some(|s|) else FirstPeriod(s)
  {
    var k := IndexOf(s, PERIOD);
    FirstPeriodUnique(s + [b], if k == |s| && b != PERIOD then |s| + 1 else k);
  }

  // ----- the certificate's hostname

  datatype AnalysedCertificateHostname =
    | SingleName(baseName: Bytes)
    | Wildcard(baseName: Bytes, asteriskIndex: nat, firstPeriodIndex: Option<nat>)
  {
    /** The stored index is the first period of the name, and the asterisk stands before it. */
    ghost predicate Valid() {
      match this
      case SingleName(_) => true
      case Wildcard(baseName, asteriskIndex, firstPeriodIndex) =>
        && firstPeriodIndex == FirstPeriod(baseName)
        && asteriskIndex < |FirstLabel(baseName)|
        && baseName[asteriskIndex] == ASTERISK
    }
  }

  /** What stands before the first period. */
  ghost function FirstLabel(s: Bytes): (part: Bytes)
    ensures |part| <= |s| && part == s[..|part|]
    ensures forall i :: 0 <= i < |part| ==> part[i] != PERIOD
  {
    s[..IndexOf(s, PERIOD)]
  }

  /** What stands after the first period; nothing when there is none. */
  ghost function RemainingLabels(s: Bytes): Bytes {
    if IndexOf(s, PERIOD) == |s| then [] else s[IndexOf(s, PERIOD) + 1..]
  }

  /** The certificate name has one asterisk, in its first label, at this position. */
  ghost predicate HasAsterisk(name: Bytes, at: nat) {
    && at < |FirstLabel(name)| && name[at] == ASTERISK
    && forall i :: 0 <= i < |name| ==> i == at || IsDnsCharacter(name[i])
  }

  const IDNA_PREFIX: Bytes := [0x78, 0x6E, 0x2D, 0x2D]

  /** The name begins with the IDNA prefix "xn--", in any letter case. */
  ghost predicate IsIdna(name: Bytes) {
    |name| >= 4 && Fold(name[..4]) == IDNA_PREFIX
  }

  predicate CaseInsensitiveAsciiMatch(a: Bytes, b: Bytes) {
    |a| == |b| && forall i :: 0 <= i < |a| ==> FoldByte(a[i]) == FoldByte(b[i])
  }

  lemma MatchIsFold(a: Bytes, b: Bytes)
    ensures CaseInsensitiveAsciiMatch(a, b) <==> Fold(a) == Fold(b)
  {
    if Fold(a) == Fold(b) {
      assert |Fold(a)| == |Fold(b)|;
      forall i | 0 <= i < |a| ensures FoldByte(a[i]) == FoldByte(b[i]) {
        assert Fold(a)[i] == Fold(b)[i];
      }
    }
  }

  /** What the scan has seen of a name: its first period, its asterisk, and otherwise only DNS characters. */
  ghost predicate Scanned(seen: Bytes, firstPeriodIndex: Option<nat>, asteriskIndex: Option<nat>) {
    && firstPeriodIndex == FirstPeriod(seen)
    && match asteriskIndex
       case None => AreDnsCharacters(seen)
       case Some(at) => HasAsterisk(seen, at)
  }

  lemma FirstLabelGrows(s: Bytes, b: Byte)
    ensures |FirstLabel(s)| <= |FirstLabel(s + [b])|
    ensures FirstPeriod(s).None? && b != PERIOD ==> FirstLabel(s + [b]) == s + [b]
    ensures FirstPeriod(s).Some? || b == PERIOD ==> FirstLabel(s + [b]) == FirstLabel(s)
  {
    var k := IndexOf(s, PERIOD);
    IndexOfUnique(s + [b], PERIOD, if k == |s| && b != PERIOD then |s| + 1 else k);
  }

  /** The scan goes on with a DNS character or with a first asterisk before any period. */
  lemma ScanGoesOn(seen: Bytes, b: Byte, firstPeriodIndex: Option<nat>, asteriskIndex: Option<nat>)
    requires Scanned(seen, firstPeriodIndex, asteriskIndex)
    ensures IsDnsCharacter(b) ==>
      Scanned(seen + [b], if firstPeriodIndex.None? && b == PERIOD then Some(|seen|) else firstPeriodIndex,
              asteriskIndex)
    ensures b == ASTERISK && asteriskIndex.None? && firstPeriodIndex.None? ==>
      Scanned(seen + [b], None, Some(|seen|))
  {
    FirstPeriodOfLonger(seen, b);
    FirstLabelGrows(seen, b);
  }

  /** Nothing else can be part of a matchable name. */
  lemma ScanStops(name: Bytes, i: nat, firstPeriodIndex: Option<nat>, asteriskIndex: Option<nat>)
    requires i < |name| && Scanned(name[..i], firstPeriodIndex, asteriskIndex)
    requires !IsDnsCharacter(name[i])
    requires !(name[i] == ASTERISK && asteriskIndex.None? && firstPeriodIndex.None?)
    ensures !AreDnsCharacters(name) && forall at: nat :: !HasAsterisk(name, at)
  {
    forall at: nat | HasAsterisk(name, at) ensures at == i {
    }
    if name[i] == ASTERISK && asteriskIndex.Some? {
      assert name[asteriskIndex.value] == ASTERISK;
      assert !IsDnsCharacter(name[asteriskIndex.value]);
    } else if name[i] == ASTERISK {
      var k := firstPeriodIndex.value;
      assert name[k] == PERIOD;
      assert forall at :: 0 <= at < |FirstLabel(name)| ==> FirstLabel(name)[at] == name[at];
    }
  }

  /** The names that can be matched: without an asterisk, or with one and not an IDNA name. */
  ghost predicate IsMatchable(name: Bytes) {
    AreDnsCharacters(name) || ((exists at: nat :: HasAsterisk(name, at)) && !IsIdna(name))
  }

  method AnalyseCertificateHostname(certificateName: Bytes) returns (analysed: Option<AnalysedCertificateHostname>)
    ensures analysed.Some? <==> IsMatchable(Relative(certificateName))
    ensures analysed.Some? ==> analysed.value.Valid() && analysed.value.baseName == Relative(certificateName)
    ensures analysed.Some? ==> (analysed.value.SingleName? <==> AreDnsCharacters(Relative(certificateName)))
    ensures analysed.Some? && analysed.value.Wildcard? ==>
      HasAsterisk(Relative(certificateName), analysed.value.asteriskIndex)
  {
    var baseName := Relative(certificateName);
    var firstPeriodIndex: Option<nat>, asteriskIndex: Option<nat> := None, None;
    for index := 0 to |baseName|
      invariant Scanned(baseName[..index], firstPeriodIndex, asteriskIndex)
    {
      var byte := baseName[index];
      assert baseName[..index + 1] == baseName[..index] + [byte];
      ScanGoesOn(baseName[..index], byte, firstPeriodIndex, asteriskIndex);
      if byte == PERIOD && firstPeriodIndex.None? {
        firstPeriodIndex := Some(index);
      } else if IsDnsCharacter(byte) {
      } else if byte == ASTERISK && asteriskIndex.None? && firstPeriodIndex.None? {
        asteriskIndex := Some(index);
      } else {
        ScanStops(baseName, index, firstPeriodIndex, asteriskIndex);
        return None;
      }
    }
    assert baseName[..|baseName|] == baseName;
    if asteriskIndex.None? {
      return Some(SingleName(baseName));
    }
    assert !IsDnsCharacter(baseName[asteriskIndex.value]);
    var prefixLength := if |baseName| < 4 then |baseName| else 4;
    PrefixIsIdna(baseName, asteriskIndex.value);
    if CaseInsensitiveAsciiMatch(baseName[..prefixLength], IDNA_PREFIX[..prefixLength]) {
      return None;
    }
    return Some(Wildcard(baseName, asteriskIndex.value, firstPeriodIndex));
  }

  /** A name shorter than the prefix cannot agree with it, since it holds an asterisk. */
  lemma PrefixIsIdna(name: Bytes, at: nat)
    requires HasAsterisk(name, at)
    ensures var n := if |name| < 4 then |name| else 4;
      CaseInsensitiveAsciiMatch(name[..n], IDNA_PREFIX[..n]) <==> IsIdna(name)
  {
    var n := if |name| < 4 then |name| else 4;
    MatchIsFold(name[..n], IDNA_PREFIX[..n]);
    assert Fold(IDNA_PREFIX) == IDNA_PREFIX;
    if |name| < 4 {
      assert FoldByte(name[..n][at]) == ASTERISK;
      assert FoldByte(IDNA_PREFIX[..n][at]) != ASTERISK;
    } else {
      assert IDNA_PREFIX[..4] == IDNA_PREFIX;
    }
  }

  // ----- matching

  function SplitAroundIndex(bytes: Bytes, index: Option<nat>): (Bytes, Bytes)
    requires index.Some? ==> index.value < |bytes|
  {
    match index
    case None => (bytes, bytes[|bytes|..])
    case Some(i) => (bytes[..i], bytes[i + 1..])
  }

  lemma SplitAroundFirstPeriod(bytes: Bytes)
    ensures SplitAroundIndex(bytes, FirstPeriod(bytes)) == (FirstLabel(bytes), RemainingLabels(bytes))
  {
    assert bytes[|bytes|..] == [] && bytes[..|bytes|] == bytes;
  }

  predicate ValidMatchForName(certificate: AnalysedCertificateHostname, target: PreparedServerHostname)
    requires certificate.Valid() && target.Valid()
  {
    match certificate
    case SingleName(baseName) => CaseInsensitiveAsciiMatch(baseName, target.bytes)
    case Wildcard(baseName, asteriskIndex, firstPeriodIndex) =>
      SplitAroundFirstPeriod(baseName);
      SplitAroundFirstPeriod(target.bytes);
      var (wildcardLabel, remainingComponents) := SplitAroundIndex(baseName, firstPeriodIndex);
      var (targetFirstLabel, targetRemainingComponents) := SplitAroundIndex(target.bytes, target.firstPeriodIndex);
      if !CaseInsensitiveAsciiMatch(remainingComponents, targetRemainingComponents) then false
      else if |targetFirstLabel| < |wildcardLabel| then false
      else
        var (wildcardPrefix, wildcardSuffix) := SplitAroundIndex(wildcardLabel, Some(asteriskIndex));
        var targetBefore := targetFirstLabel[..|wildcardPrefix|];
        var targetAfter := targetFirstLabel[|targetFirstLabel| - |wildcardSuffix|..];
        CaseInsensitiveAsciiMatch(targetBefore, wildcardPrefix)
        && CaseInsensitiveAsciiMatch(targetAfter, wildcardSuffix)
  }

  /** The folded label is the prefix, something, and the suffix. */
  ghost predicate FillsWildcard(folded: Bytes, prefix: Bytes, filling: Bytes, suffix: Bytes) {
    filling != [] && PERIOD !in filling && folded == prefix + (filling + suffix)
  }

  ghost predicate CanFillWildcard(folded: Bytes, prefix: Bytes, suffix: Bytes) {
    exists filling :: FillsWildcard(folded, prefix, filling, suffix)
  }

  /**
   * A pattern with an asterisk matches a hostname when what follows the first period agrees, letter case
   * aside, and the hostname's first label is the pattern's with the asterisk replaced by at least one
   * character (section 6.4.3 of RFC 6125).
   */
  ghost predicate WildcardMatches(pattern: Bytes, at: nat, hostname: Bytes)
    requires HasAsterisk(pattern, at)
  {
    && Fold(RemainingLabels(pattern)) == Fold(RemainingLabels(hostname))
    && CanFillWildcard(Fold(FirstLabel(hostname)), Fold(FirstLabel(pattern)[..at]), Fold(FirstLabel(pattern)[at + 1..]))
  }

  lemma FillWildcard(folded: Bytes, prefix: Bytes, suffix: Bytes)
    requires PERIOD !in folded
    ensures CanFillWildcard(folded, prefix, suffix)
      <==> (|prefix| + 1 + |suffix| <= |folded|
        && folded[..|prefix|] == prefix && folded[|folded| - |suffix|..] == suffix)
  {
    if filling :| FillsWildcard(folded, prefix, filling, suffix) {
      assert folded[..|prefix|] == prefix;
      assert folded[|folded| - |suffix|..] == suffix;
    }
    if |prefix| + 1 + |suffix| <= |folded| && folded[..|prefix|] == prefix && folded[|folded| - |suffix|..] == suffix {
      var filling := folded[|prefix|..|folded| - |suffix|];
      assert folded == prefix + (filling + suffix);
      assert forall b :: b in filling ==> b in folded;
      assert FillsWildcard(folded, prefix, filling, suffix);
    }
  }

  lemma FoldSlice(s: Bytes, i: nat, j: nat)
    requires i <= j <= |s|
    ensures Fold(s[i..j]) == Fold(s)[i..j]
  {
  }

  lemma FoldedLabelHasNoPeriod(s: Bytes)
    ensures PERIOD !in Fold(FirstLabel(s))
  {
    forall i | 0 <= i < |FirstLabel(s)| ensures Fold(FirstLabel(s))[i] != PERIOD {
      FoldKeepsPeriods(FirstLabel(s)[i]);
    }
  }

  ghost predicate EndsMatch(label': Bytes, prefix: Bytes, suffix: Bytes) {
    && |prefix| + 1 + |suffix| <= |label'|
    && CaseInsensitiveAsciiMatch(label'[..|prefix|], prefix)
    && CaseInsensitiveAsciiMatch(label'[|label'| - |suffix|..], suffix)
  }

  /** Comparing both ends of a label is looking for something to fill the wildcard with. */
  lemma EndsMatchIsFilling(label': Bytes, prefix: Bytes, suffix: Bytes)
    requires PERIOD !in Fold(label')
    ensures EndsMatch(label', prefix, suffix) <==> CanFillWildcard(Fold(label'), Fold(prefix), Fold(suffix))
  {
    FillWildcard(Fold(label'), Fold(prefix), Fold(suffix));
    if |prefix| + 1 + |suffix| <= |label'| {
      MatchIsFold(label'[..|prefix|], prefix);
      MatchIsFold(label'[|label'| - |suffix|..], suffix);
      FoldSlice(label', 0, |prefix|);
      FoldSlice(label', |label'| - |suffix|, |label'|);
    }
  }

  lemma MatchByParts(certificate: AnalysedCertificateHostname, target: PreparedServerHostname)
    requires certificate.Valid() && target.Valid() && certificate.Wildcard?
    requires HasAsterisk(certificate.baseName, certificate.asteriskIndex)
    ensures var at, label' := certificate.asteriskIndex, FirstLabel(certificate.baseName);
      ValidMatchForName(certificate, target) <==>
        && CaseInsensitiveAsciiMatch(RemainingLabels(certificate.baseName), RemainingLabels(target.bytes))
        && EndsMatch(FirstLabel(target.bytes), label'[..at], label'[at + 1..])
  {
    SplitAroundFirstPeriod(certificate.baseName);
    SplitAroundFirstPeriod(target.bytes);
  }

  /** The match on the analysed pattern and the prepared hostname is the wildcard match of section 6.4.3. */
  lemma WildcardMatchIsExact(certificate: AnalysedCertificateHostname, target: PreparedServerHostname)
    requires certificate.Valid() && target.Valid() && certificate.Wildcard?
    requires HasAsterisk(certificate.baseName, certificate.asteriskIndex)
    ensures ValidMatchForName(certificate, target)
      <==> WildcardMatches(certificate.baseName, certificate.asteriskIndex, target.bytes)
  {
    var at, label' := certificate.asteriskIndex, FirstLabel(certificate.baseName);
    MatchByParts(certificate, target);
    MatchIsFold(RemainingLabels(certificate.baseName), RemainingLabels(target.bytes));
    FoldedLabelHasNoPeriod(target.bytes);
    EndsMatchIsFilling(FirstLabel(target.bytes), label'[..at], label'[at + 1..]);
  }

  // ----- hostnames, as text

  /** The certificate name is good for the hostname. */
  ghost predicate HostnameMatches(hostname: Bytes, certificateName: Bytes) {
    var name, host := Relative(certificateName), Relative(hostname);
    && AreDnsCharacters(hostname)
    && IsMatchable(name)
    && if AreDnsCharacters(name) then Fold(name) == Fold(host)
       else exists at: nat :: HasAsterisk(name, at) && WildcardMatches(name, at, Fold(host))
  }

  lemma AsteriskIsUnique(name: Bytes, i: nat, j: nat)
    requires HasAsterisk(name, i) && HasAsterisk(name, j)
    ensures i == j
  {
    assert !IsDnsCharacter(name[i]);
  }

  method MatchHostname(serverHostname: Option<PreparedServerHostname>, certificateName: Bytes, ghost hostname: Bytes)
    returns (matched: bool)
    requires serverHostname.Some? <==> AreDnsCharacters(hostname)
    requires serverHostname.Some? ==>
      serverHostname.value.Valid() && serverHostname.value.bytes == Fold(Relative(hostname))
    ensures matched == HostnameMatches(hostname, certificateName)
  {
    if serverHostname.None? {
      return false;
    }
    var analysed := AnalyseCertificateHostname(certificateName);
    if analysed.None? {
      return false;
    }
    ghost var name := Relative(certificateName);
    MatchIsFold(name, serverHostname.value.bytes);
    FoldIdempotent(Relative(hostname));
    if analysed.value.Wildcard? {
      WildcardMatchIsExact(analysed.value, serverHostname.value);
      forall at: nat | HasAsterisk(name, at) ensures at == analysed.value.asteriskIndex {
        AsteriskIsUnique(name, at, analysed.value.asteriskIndex);
      }
    }
    return ValidMatchForName(analysed.value, serverHostname.value);
  }

  // ----- laws of hostname matching

  lemma FoldKeepsDnsCharacters(s: Bytes)
    ensures AreDnsCharacters(Fold(s)) <==> AreDnsCharacters(s)
  {
    forall i | 0 <= i < |s| ensures IsDnsCharacter(Fold(s)[i]) <==> IsDnsCharacter(s[i]) {
      FoldKeepsDnsCharacter(s[i]);
    }
  }

  lemma FoldKeepsDnsCharacter(b: Byte)
    ensures IsDnsCharacter(FoldByte(b)) <==> IsDnsCharacter(b)
    ensures FoldByte(b) == ASTERISK <==> b == ASTERISK
  {
  }

  lemma RelativeFold(s: Bytes)
    ensures Relative(Fold(s)) == Fold(Relative(s))
  {
    if s != [] {
      FoldKeepsPeriods(s[|s| - 1]);
    }
  }

  lemma PartsOfFold(s: Bytes)
    ensures FirstLabel(Fold(s)) == Fold(FirstLabel(s))
    ensures RemainingLabels(Fold(s)) == Fold(RemainingLabels(s))
  {
    forall i | 0 <= i < |s| ensures Fold(s)[i] == PERIOD <==> s[i] == PERIOD {
      FoldKeepsPeriods(s[i]);
    }
    IndexOfUnique(Fold(s), PERIOD, IndexOf(s, PERIOD));
  }

  lemma AsteriskOfFold(name: Bytes, at: nat)
    ensures HasAsterisk(Fold(name), at) <==> HasAsterisk(name, at)
  {
    PartsOfFold(name);
    forall i | 0 <= i < |name|
      ensures IsDnsCharacter(Fold(name)[i]) <==> IsDnsCharacter(name[i])
      ensures Fold(name)[i] == ASTERISK <==> name[i] == ASTERISK
    {
      FoldKeepsDnsCharacter(name[i]);
    }
  }

  lemma WildcardMatchIgnoresCase(pattern: Bytes, at: nat, hostname: Bytes)
    requires HasAsterisk(pattern, at) && HasAsterisk(Fold(pattern), at)
    ensures WildcardMatches(Fold(pattern), at, hostname) <==> WildcardMatches(pattern, at, hostname)
  {
    PartsOfFold(pattern);
    var part := FirstLabel(pattern);
    FoldSlice(part, 0, at);
    FoldSlice(part, at + 1, |part|);
    FoldIdempotent(part[..at]);
    FoldIdempotent(part[at + 1..]);
    FoldIdempotent(RemainingLabels(pattern));
    assert FirstLabel(Fold(pattern))[..at] == Fold(part[..at]);
    assert FirstLabel(Fold(pattern))[at + 1..] == Fold(part[at + 1..]);
  }

  lemma IdnaOfFold(name: Bytes)
    ensures IsIdna(Fold(name)) <==> IsIdna(name)
  {
    if |name| >= 4 {
      FoldSlice(name, 0, 4);
      FoldIdempotent(name[..4]);
    }
  }

  /** The letter case of neither name matters. */
  lemma HostnameMatchIgnoresCase(hostname: Bytes, certificateName: Bytes)
    ensures HostnameMatches(Fold(hostname), certificateName) <==> HostnameMatches(hostname, certificateName)
    ensures HostnameMatches(hostname, Fold(certificateName)) <==> HostnameMatches(hostname, certificateName)
  {
    var name := Relative(certificateName);
    RelativeFold(hostname);
    RelativeFold(certificateName);
    FoldIdempotent(Relative(hostname));
    FoldIdempotent(name);
    FoldKeepsDnsCharacters(hostname);
    FoldKeepsDnsCharacters(name);
    IdnaOfFold(name);
    forall at: nat
      ensures HasAsterisk(Fold(name), at) <==> HasAsterisk(name, at)
      ensures HasAsterisk(name, at) ==>
        var host := Fold(Relative(hostname));
        (WildcardMatches(Fold(name), at, host) <==> WildcardMatches(name, at, host))
    {
      AsteriskOfFold(name, at);
      if HasAsterisk(name, at) {
        WildcardMatchIgnoresCase(name, at, Fold(Relative(hostname)));
      }
    }
  }

  /** A trailing period added to either name, where there is none, does not matter. */
  lemma TrailingPeriodDoesNotMatter(hostname: Bytes, certificateName: Bytes)
    ensures hostname == Relative(hostname) ==>
      (HostnameMatches(hostname + [PERIOD], certificateName) <==> HostnameMatches(hostname, certificateName))
    ensures certificateName == Relative(certificateName) ==>
      (HostnameMatches(hostname, certificateName + [PERIOD]) <==> HostnameMatches(hostname, certificateName))
  {
    var h, c := hostname + [PERIOD], certificateName + [PERIOD];
    assert Relative(h) == hostname && Relative(c) == certificateName;
    assert AreDnsCharacters(h) <==> AreDnsCharacters(hostname) by {
      if AreDnsCharacters(h) {
        forall i | 0 <= i < |hostname| ensures IsDnsCharacter(hostname[i]) {
          assert h[i] == hostname[i];
        }
      }
    }
  }

  // ----- the leaf's identity

  datatype IpAddress = V4(octets: Bytes) | V6(octets: Bytes)

  function FromSanBytes(bytes: Bytes): (address: Option<IpAddress>)
    ensures address.Some? <==> |bytes| == 4 || |bytes| == 16
    ensures address.Some? ==> address.value.octets == bytes && (address.value.V4? <==> |bytes| == 4)
  {
    if |bytes| == 4 then Some(V4(bytes)) else if |bytes| == 16 then Some(V6(bytes)) else None
  }

  /** A name in the subjectAltName extension that is good for the server. */
  ghost predicate NameIsGood(name: GeneralName, hostname: Option<Bytes>, serverIp: Option<IpAddress>) {
    match name
    case DNSName(value) => hostname.Some? && HostnameMatches(hostname.value, value)
    case IPAddress(value) => serverIp.Some? && FromSanBytes(value) == serverIp
    case _ => false
  }

  ghost predicate CommonNameIsGood(leaf: Certificate, hostname: Option<Bytes>) {
    && leaf.commonNames != []
    && leaf.commonNames[|leaf.commonNames| - 1].Some?
    && hostname.Some?
    && HostnameMatches(hostname.value, leaf.commonNames[|leaf.commonNames| - 1].value)
  }

  /** Any subject alternative name at all rules the common name out. */
  ghost predicate LeafIsGood(leaf: Certificate, hostname: Option<Bytes>, serverIp: Option<IpAddress>) {
    if leaf.subjectAltName.Malformed? then false
    else if leaf.SubjectAlternativeNames() != [] then
      exists name :: name in leaf.SubjectAlternativeNames() && NameIsGood(name, hostname, serverIp)
    else
      CommonNameIsGood(leaf, hostname)
  }

  /** The hostname a policy was made for, prepared once. */
  datatype ServerIdentityPolicy = ServerIdentityPolicy(
    serverHostname: Option<PreparedServerHostname>,
    serverIp: Option<IpAddress>)
  {
    ghost predicate IsFor(hostname: Option<Bytes>) {
      if hostname.None? then serverHostname.None?
      else
        && (serverHostname.Some? <==> AreDnsCharacters(hostname.value))
        && (serverHostname.Some? ==>
          serverHostname.value.Valid() && serverHostname.value.bytes == Fold(Relative(hostname.value)))
    }
  }

  method CreatePolicy(hostname: Option<Bytes>, serverIp: Option<IpAddress>) returns (policy: ServerIdentityPolicy)
    ensures policy.IsFor(hostname) && policy.serverIp == serverIp
  {
    var serverHostname: Option<PreparedServerHostname> := None;
    if hostname.Some? {
      serverHostname := PrepareServerHostname(hostname.value);
    }
    return ServerIdentityPolicy(serverHostname, serverIp);
  }

  method MatchOptionalHostname(policy: ServerIdentityPolicy, certificateName: Bytes, ghost hostname: Option<Bytes>)
    returns (matched: bool)
    requires policy.IsFor(hostname)
    ensures matched <==> hostname.Some? && HostnameMatches(hostname.value, certificateName)
  {
    if policy.serverHostname.None? {
      return false;
    }
    matched := MatchHostname(policy.serverHostname, certificateName, hostname.value);
  }

  method CheckName(policy: ServerIdentityPolicy, name: GeneralName, ghost hostname: Option<Bytes>) returns (good: bool)
    requires policy.IsFor(hostname)
    ensures good == NameIsGood(name, hostname, policy.serverIp)
  {
    match name {
      case DNSName(value) => good := MatchOptionalHostname(policy, value, hostname);
      case IPAddress(value) => good := policy.serverIp.Some? && FromSanBytes(value) == policy.serverIp;
      case _ => good := false;
    }
  }

  method HasValidIdentityForService(policy: ServerIdentityPolicy, leaf: Certificate, ghost hostname: Option<Bytes>)
    returns (result: PolicyEvaluationResult)
    requires policy.IsFor(hostname)
    ensures result.Ok? <==> LeafIsGood(leaf, hostname, policy.serverIp)
  {
    if leaf.subjectAltName.Malformed? {
      return Err("undecodable names");
    }
    var names := leaf.SubjectAlternativeNames();
    var checkedMatch := false;
    for i := 0 to |names|
      invariant checkedMatch <==> i > 0
      invariant forall k :: 0 <= k < i ==> !NameIsGood(names[k], hostname, policy.serverIp)
    {
      checkedMatch := true;
      var good := CheckName(policy, names[i], hostname);
      if good {
        return Ok(());
      }
    }
    if checkedMatch {
      return Err("no name matched");
    }
    if leaf.commonNames == [] || leaf.commonNames[|leaf.commonNames| - 1].None? {
      return Err("no names");
    }
    var good := MatchOptionalHostname(policy, leaf.commonNames[|leaf.commonNames| - 1].value, hostname);
    return if good then Ok(()) else Err("no common name matched");
  }

  /**
   * The common name is consulted exactly when there is no alternative name whatever; a single name of a kind
   * that cannot be matched against, an e-mail address say, is enough to rule it out.
   */
  lemma UnmatchableNamesRuleOutCommonName(leaf: Certificate, hostname: Option<Bytes>, serverIp: Option<IpAddress>)
    requires leaf.subjectAltName.Present?
    requires forall name :: name in leaf.subjectAltName.value ==> !name.DNSName? && !name.IPAddress?
    ensures LeafIsGood(leaf, hostname, serverIp)
      <==> leaf.subjectAltName.value == [] && CommonNameIsGood(leaf, hostname)
  {
    if leaf.subjectAltName.value != [] {
      forall name | name in leaf.subjectAltName.value ensures !NameIsGood(name, hostname, serverIp) {
      }
    }
  }

  // ----- against the comments

  /** A name of a kind that could be matched against the server. */
  predicate CanBeMatched(name: GeneralName) {
    name.DNSName? || name.IPAddress?
  }

  /** What the comments say: only alternative names that could be matched against rule the common name out. */
  ghost predicate LeafIsGoodAsCommented(leaf: Certificate, hostname: Option<Bytes>, serverIp: Option<IpAddress>) {
    if leaf.subjectAltName.Malformed? then false
    else if exists name :: name in leaf.SubjectAlternativeNames() && CanBeMatched(name) then
      exists name :: name in leaf.SubjectAlternativeNames() && NameIsGood(name, hostname, serverIp)
    else
      CommonNameIsGood(leaf, hostname)
  }

  predicate HasOnlyUnmatchableNames(leaf: Certificate) {
    && leaf.SubjectAlternativeNames() != []
    && forall name :: name in leaf.SubjectAlternativeNames() ==> !CanBeMatched(name)
  }

  /** The code does what the comments say unless names of other kinds alone shut out a good common name. */
  lemma CommentsHoldExactly(leaf: Certificate, hostname: Option<Bytes>, serverIp: Option<IpAddress>)
    ensures (LeafIsGood(leaf, hostname, serverIp) <==> LeafIsGoodAsCommented(leaf, hostname, serverIp))
      <==> !(HasOnlyUnmatchableNames(leaf) && CommonNameIsGood(leaf, hostname))
  {
    if HasOnlyUnmatchableNames(leaf) {
      UnmatchableNamesRuleOutCommonName(leaf, hostname, serverIp);
    }
  }

  ghost function MailOnly(commonName: Bytes): Certificate {
    var names := Present([RFC822Name([])]);
    Certificate(false, [], [], [], [], names, None, None, Absent, Absent, [Some(commonName)], [], [], [])
  }

  /** A leaf with the right common name and nothing but an e-mail address beside it is refused. */
  lemma MailAddressRulesOutCommonName(hostname: Bytes, serverIp: Option<IpAddress>)
    requires AreDnsCharacters(hostname)
    ensures CommonNameIsGood(MailOnly(hostname), Some(hostname))
    ensures !LeafIsGood(MailOnly(hostname), Some(hostname), serverIp)
  {
  }
}
