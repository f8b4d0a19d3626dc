/** Which hostnames a certificate name is good for, spelled out in bytes (section 6.4.3 of RFC 6125). */
module HostnameText {
  import opened Wrappers
  import opened Bytes
  import opened Certificates
  import opened LabelSplitting
  import opened Sequences
  import opened ServerIdentityPolicy

  /** Letters, digits, hyphens and periods. */
  ghost predicate IsHostnameText(s: Bytes) {
    forall i :: 0 <= i < |s| ==>
      0x30 <= s[i] <= 0x39 || 0x41 <= s[i] <= 0x5A || 0x61 <= s[i] <= 0x7A || s[i] == 0x2D || s[i] == 0x2E
  }

  ghost predicate HasNoPeriod(s: Bytes) {
    forall i :: 0 <= i < |s| ==> s[i] != 0x2E
  }

  /** The text in lower case, without one period at its end. */
  ghost function Normal(s: Bytes): Bytes {
    Fold(if s != [] && s[|s| - 1] == 0x2E then s[..|s| - 1] else s)
  }

  /** The first label is `first`, and after it come a period and `more`, or nothing when that is nothing. */
  ghost predicate Begins(s: Bytes, first: Bytes, more: Bytes) {
    HasNoPeriod(first) && (s == first + ([0x2E] + more) || (s == first && more == []))
  }

  /** The first label of the pattern has an asterisk where that of the host has at least one more byte. */
  ghost predicate FitsPattern(host: Bytes, pattern: Bytes, before: Bytes, filling: Bytes, after: Bytes, more: Bytes) {
    && IsHostnameText(before) && IsHostnameText(after) && IsHostnameText(more)
    && Begins(pattern, before + ([0x2A] + after), more)
    && Begins(host, before + (filling + after), more)
    && filling != []
  }

  ghost predicate BeginsWithXn(s: Bytes) {
    |s| >= 4 && s[0] == 0x78 && s[1] == 0x6E && s[2] == 0x2D && s[3] == 0x2D
  }

  lemma HostnameTextExactly(s: Bytes)
    ensures IsHostnameText(s) <==> AreDnsCharacters(s)
  {
    forall i | 0 <= i < |s|
      ensures IsDnsCharacter(s[i]) <==>
        0x30 <= s[i] <= 0x39 || 0x41 <= s[i] <= 0x5A || 0x61 <= s[i] <= 0x7A || s[i] == 0x2D || s[i] == 0x2E
    {
    }
  }

  lemma BeginsExactly(s: Bytes, first: Bytes, more: Bytes)
    ensures Begins(s, first, more) <==> FirstLabel(s) == first && RemainingLabels(s) == more
  {
    var k := IndexOf(s, PERIOD);
    if k < |s| {
      Cut(s, k);
    }
    if Begins(s, first, more) {
      IndexOfUnique(s, PERIOD, |first|);
    }
  }

  // ----- texts in lower case

  lemma LowerCaseParts(s: Bytes)
    requires Fold(s) == s
    ensures Fold(FirstLabel(s)) == FirstLabel(s) && Fold(RemainingLabels(s)) == RemainingLabels(s)
  {
    PartsOfFold(s);
  }

  lemma LowerCaseSlices(s: Bytes, at: nat)
    requires Fold(s) == s && at < |s|
    ensures Fold(s[..at]) == s[..at] && Fold(s[at + 1..]) == s[at + 1..]
  {
    assert s[0..at] == s[..at] && s[at + 1..|s|] == s[at + 1..];
    FoldSlice(s, 0, at);
    FoldSlice(s, at + 1, |s|);
  }

  /** The bytes of a pattern other than its asterisk. */
  lemma PatternBytes(pattern: Bytes, at: nat)
    requires HasAsterisk(pattern, at)
    ensures IsHostnameText(FirstLabel(pattern)[..at]) && IsHostnameText(FirstLabel(pattern)[at + 1..])
    ensures IsHostnameText(RemainingLabels(pattern))
    ensures FirstLabel(pattern) == FirstLabel(pattern)[..at] + ([0x2A] + FirstLabel(pattern)[at + 1..])
  {
    var first, k := FirstLabel(pattern), IndexOf(pattern, PERIOD);
    forall i | 0 <= i < |first| && i != at ensures IsDnsCharacter(first[i]) {
      assert first[i] == pattern[i];
    }
    if k < |pattern| {
      forall i | 0 <= i < |RemainingLabels(pattern)| ensures IsDnsCharacter(RemainingLabels(pattern)[i]) {
        assert RemainingLabels(pattern)[i] == pattern[k + 1 + i];
      }
    }
    HostnameTextExactly(first[..at]);
    HostnameTextExactly(first[at + 1..]);
    HostnameTextExactly(RemainingLabels(pattern));
    Cut(first, at);
  }

  lemma MatchFits(host: Bytes, pattern: Bytes, at: nat)
    requires Fold(pattern) == pattern && Fold(host) == host
    requires HasAsterisk(pattern, at) && WildcardMatches(pattern, at, host)
    ensures exists before, filling, after, more :: FitsPattern(host, pattern, before, filling, after, more)
  {
    var first, more := FirstLabel(pattern), RemainingLabels(pattern);
    LowerCaseParts(pattern);
    LowerCaseParts(host);
    LowerCaseSlices(first, at);
    var before, after := first[..at], first[at + 1..];
    var filling :| FillsWildcard(FirstLabel(host), before, filling, after);
    PatternBytes(pattern, at);
    BeginsExactly(pattern, first, more);
    BeginsExactly(host, FirstLabel(host), more);
    assert FitsPattern(host, pattern, before, filling, after, more);
  }

  lemma FitMatches(host: Bytes, pattern: Bytes, before: Bytes, filling: Bytes, after: Bytes, more: Bytes)
    requires Fold(pattern) == pattern && Fold(host) == host
    requires FitsPattern(host, pattern, before, filling, after, more)
    ensures HasAsterisk(pattern, |before|) && WildcardMatches(pattern, |before|, host)
  {
    var first, at := before + ([0x2A] + after), |before|;
    BeginsExactly(pattern, first, more);
    BeginsExactly(host, before + (filling + after), more);
    FitHasAsterisk(pattern, before, after, more);
    LowerCaseParts(pattern);
    LowerCaseParts(host);
    LowerCaseSlices(first, at);
    assert first[..at] == before && first[at + 1..] == after;
    FillingHasNoPeriod(before, filling, after);
    assert FillsWildcard(FirstLabel(host), before, filling, after);
  }

  lemma FillingHasNoPeriod(before: Bytes, filling: Bytes, after: Bytes)
    requires HasNoPeriod(before + (filling + after))
    ensures PERIOD !in filling
  {
    forall i | 0 <= i < |filling| ensures filling[i] != PERIOD {
      assert (before + (filling + after))[|before| + i] == filling[i];
    }
  }

  lemma FitHasAsterisk(pattern: Bytes, before: Bytes, after: Bytes, more: Bytes)
    requires IsHostnameText(before) && IsHostnameText(after) && IsHostnameText(more)
    requires Begins(pattern, before + ([0x2A] + after), more)
    ensures HasAsterisk(pattern, |before|)
  {
    BeginsExactly(pattern, before + ([0x2A] + after), more);
    HostnameTextExactly(before);
    HostnameTextExactly(after);
    HostnameTextExactly(more);
    assert IsDnsCharacter(0x2E);
  }

  // ----- hostnames

  lemma XnExactly(name: Bytes)
    requires Fold(name) == name
    ensures BeginsWithXn(name) <==> IsIdna(name)
  {
    if |name| >= 4 {
      FoldSlice(name, 0, 4);
      assert name[0..4] == name[..4];
      assert name[..4] == [name[0], name[1], name[2], name[3]];
    }
  }

  /** The pattern is the host, or the host fits it. */
  ghost predicate TextMatches(host: Bytes, pattern: Bytes) {
    || (IsHostnameText(pattern) && pattern == host)
    || (!BeginsWithXn(pattern)
      && exists before, filling, after, more :: FitsPattern(host, pattern, before, filling, after, more))
  }

  lemma LowerCaseMatch(hostname: Bytes, name: Bytes)
    requires Fold(hostname) == hostname && Fold(name) == name
    ensures HostnameMatches(hostname, name)
      <==> IsHostnameText(hostname) && TextMatches(Relative(hostname), Relative(name))
  {
    var host, pattern := Relative(hostname), Relative(name);
    RelativeFold(hostname);
    RelativeFold(name);
    HostnameTextExactly(hostname);
    HostnameTextExactly(pattern);
    XnExactly(pattern);
    forall at: nat | HasAsterisk(pattern, at) && WildcardMatches(pattern, at, host)
      ensures exists before, filling, after, more :: FitsPattern(host, pattern, before, filling, after, more)
    {
      MatchFits(host, pattern, at);
    }
    forall before, filling, after, more | FitsPattern(host, pattern, before, filling, after, more)
      ensures HasAsterisk(pattern, |before|) && WildcardMatches(pattern, |before|, host)
      ensures !AreDnsCharacters(pattern)
    {
      FitMatches(host, pattern, before, filling, after, more);
      assert !IsDnsCharacter(pattern[|before|]);
    }
  }

  lemma MatchesInLowerCase(hostname: Bytes, certificateName: Bytes)
    ensures HostnameMatches(hostname, certificateName) <==> HostnameMatches(Fold(hostname), Fold(certificateName))
  {
    HostnameMatchIgnoresCase(hostname, certificateName);
    HostnameMatchIgnoresCase(Fold(hostname), certificateName);
  }

  lemma LowerCaseHostname(s: Bytes)
    ensures Fold(Fold(s)) == Fold(s) && Relative(Fold(s)) == Normal(s)
    ensures IsHostnameText(Fold(s)) <==> IsHostnameText(s)
  {
    FoldIdempotent(s);
    RelativeFold(s);
    HostnameTextExactly(s);
    HostnameTextExactly(Fold(s));
    FoldKeepsDnsCharacters(s);
  }

  /** A certificate name is good for a hostname exactly when it is that name or a pattern the name fits. */
  lemma MatchesAsText(hostname: Bytes, certificateName: Bytes)
    ensures HostnameMatches(hostname, certificateName)
      <==> IsHostnameText(hostname) && TextMatches(Normal(hostname), Normal(certificateName))
  {
    MatchesInLowerCase(hostname, certificateName);
    LowerCaseHostname(hostname);
    LowerCaseHostname(certificateName);
    LowerCaseMatch(Fold(hostname), Fold(certificateName));
  }

  /** A hostname is good for itself. */
  lemma MatchesItself(hostname: Bytes)
    ensures HostnameMatches(hostname, hostname) <==> IsHostnameText(hostname)
  {
    MatchesAsText(hostname, hostname);
    HostnameTextExactly(Normal(hostname));
    HostnameTextExactly(hostname);
    if IsHostnameText(hostname) {
      FoldKeepsDnsCharacters(Relative(hostname));
    }
  }

  // ----- leaves

  /** A leaf is good for a server by a name it has, or by its last common name when it has none at all. */
  lemma LeafIsGoodExactly(leaf: Certificate, hostname: Option<Bytes>, serverIp: Option<IpAddress>)
    ensures LeafIsGood(leaf, hostname, serverIp) <==>
      match leaf.subjectAltName
      case Malformed => false
      case Absent => LastCommonNameMatches(leaf, hostname)
      case Present(names) =>
        if names == [] then LastCommonNameMatches(leaf, hostname)
        else exists name :: name in names && IsServer(name, hostname, serverIp)
  {
    forall name ensures IsServer(name, hostname, serverIp) <==> NameIsGood(name, hostname, serverIp) {
    }
  }

  ghost predicate LastCommonNameMatches(leaf: Certificate, hostname: Option<Bytes>) {
    && hostname.Some? && |leaf.commonNames| > 0
    && exists name :: leaf.commonNames[|leaf.commonNames| - 1] == Some(name) && HostnameMatches(hostname.value, name)
  }

  /** A DNS name that matches, or exactly the address. */
  ghost predicate IsServer(name: GeneralName, hostname: Option<Bytes>, serverIp: Option<IpAddress>) {
    || (name.DNSName? && hostname.Some? && HostnameMatches(hostname.value, name.value))
    || (name.IPAddress? && |name.value| == 4 && serverIp == Some(V4(name.value)))
    || (name.IPAddress? && |name.value| == 16 && serverIp == Some(V6(name.value)))
  }
}
