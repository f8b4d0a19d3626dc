/** uniformResourceIdentifier constraints (x509-validator/src/rfc5280/uri_constraints.rs). */
module UriConstraints {
  import opened Wrappers
  import opened Bytes
  import opened DnsNames
  import opened DnsConstraintLaws
  import opened LabelSplitting
  import opened Sequences

  const COLON: Byte := 0x3A
  const SLASH: Byte := 0x2F
  const QUESTION: Byte := 0x3F
  const HASH: Byte := 0x23
  const AT: Byte := 0x40
  const OPEN_BRACKET: Byte := 0x5B
  const CLOSE_BRACKET: Byte := 0x5D

  /** A test for IP address literals. */
  type IpAddressTest = Bytes -> bool

  // ----- text

  predicate IsContinuation(b: Byte) { 0x80 <= b <= 0xBF }

  /** The length of the well-formed UTF-8 sequence the octets begin with, or 0. */
  function CharWidth(s: Bytes): (w: nat)
    ensures w <= |s|
  {
    if s == [] then 0
    else if s[0] < 0x80 then 1
    else if |s| < 2 then 0
    else if 0xC2 <= s[0] <= 0xDF && IsContinuation(s[1]) then 2
    else if |s| < 3 || !IsContinuation(s[2]) then 0
    else if s[0] == 0xE0 && 0xA0 <= s[1] <= 0xBF then 3
    else if s[0] == 0xED && 0x80 <= s[1] <= 0x9F then 3
    else if 0xE1 <= s[0] <= 0xEF && s[0] != 0xED && IsContinuation(s[1]) then 3
    else if |s| < 4 || !IsContinuation(s[3]) then 0
    else if s[0] == 0xF0 && 0x90 <= s[1] <= 0xBF then 4
    else if s[0] == 0xF4 && 0x80 <= s[1] <= 0x8F then 4
    else if 0xF1 <= s[0] <= 0xF3 && IsContinuation(s[1]) then 4
    else 0
  }

  predicate IsUtf8(s: Bytes) {
    s == [] || (CharWidth(s) > 0 && IsUtf8(s[CharWidth(s)..]))
  }

  // ----- the host of a URI

  predicate IsSeparator(s: Bytes, i: nat) {
    i + 3 <= |s| && s[i] == COLON && s[i + 1] == SLASH && s[i + 2] == SLASH
  }

  /** Where the first "://" begins, or |s|. */
  function FindSeparator(s: Bytes): (k: nat)
    ensures k <= |s|
    ensures forall i: nat :: i < k ==> !IsSeparator(s, i)
    ensures k < |s| ==> IsSeparator(s, k)
  {
    if s == [] || IsSeparator(s, 0) then 0
    else
      var k := FindSeparator(s[1..]);
      assert forall i: nat :: 0 < i < |s| ==> (IsSeparator(s, i) <==> IsSeparator(s[1..], i - 1));
      1 + k
  }

  predicate EndsAuthority(b: Byte) {
    b == SLASH || b == QUESTION || b == HASH
  }

  function AuthorityEnd(s: Bytes): (k: nat)
    ensures k <= |s|
    ensures forall i :: 0 <= i < k ==> !EndsAuthority(s[i])
    ensures k < |s| ==> EndsAuthority(s[k])
  {
    if s == [] || EndsAuthority(s[0]) then 0 else 1 + AuthorityEnd(s[1..])
  }

  function HostOfHostAndPort(hostAndPort: Bytes): Option<Bytes>
    requires hostAndPort != []
  {
    if hostAndPort[0] == OPEN_BRACKET then
      var end := IndexOf(hostAndPort, CLOSE_BRACKET);
      if end == |hostAndPort| then None else Some(hostAndPort[1..end])
    else
      var afterColon := AfterLast(hostAndPort, COLON);
      if afterColon > 0 then Some(hostAndPort[..afterColon - 1]) else Some(hostAndPort)
  }

  function HostOfAuthority(authority: Bytes): Option<Bytes> {
    var hostAndPort := authority[AfterLast(authority, AT)..];
    if hostAndPort == [] then None
    else
      var host := HostOfHostAndPort(hostAndPort);
      if host == None || host == Some([]) then None else host
  }

  function ExtractHost(uri: Bytes): Option<Bytes> {
    if !IsUtf8(uri) then None
    else
      var separator := FindSeparator(uri);
      if separator == |uri| then None
      else
        var afterScheme := uri[separator + 3..];
        var authority := afterScheme[..AuthorityEnd(afterScheme)];
        var host := HostOfAuthority(authority);
        if host.None? then None else Some(Fold(host.value))
  }

  ghost predicate UriNameMatches(uri: Bytes, constraint: Bytes, isIpAddress: IpAddressTest) {
    match ExtractHost(uri)
    case None => false
    case Some(host) => !isIpAddress(host) && DnsNameMatches(host, constraint)
  }

  method UriNameMatchesConstraint(uri: Bytes, constraint: Bytes, isIpAddress: IpAddressTest) returns (matched: bool)
    ensures matched == UriNameMatches(uri, constraint, isIpAddress)
  {
    var host := ExtractHost(uri);
    if host.None? || isIpAddress(host.value) {
      return false;
    }
    matched := DnsNameMatchesConstraint(host.value, constraint);
  }

  // ----- assembling URIs (section 3.2 of RFC 3986)

  datatype Host =
    | Named(name: Bytes, port: Option<Bytes>)
    | Bracketed(name: Bytes, after: Bytes)
  {
    ghost function Text(): Bytes {
      match this
      case Named(name, None) => name
      case Named(name, Some(port)) => name + ([COLON] + port)
      case Bracketed(name, after) => [OPEN_BRACKET] + (name + ([CLOSE_BRACKET] + after))
    }

    ghost predicate WellFormed() {
      && name != []
      && match this
         case Named(name, None) => InsideAuthority(name) && name[0] != OPEN_BRACKET && Without(name, COLON)
         case Named(name, Some(port)) =>
           && InsideAuthority(name) && name[0] != OPEN_BRACKET
           && InsideAuthority(port) && Without(port, COLON)
         case Bracketed(name, after) => InsideAuthority(name) && Without(name, CLOSE_BRACKET) && InsideAuthority(after)
    }
  }

  ghost predicate Without(s: Bytes, b: Byte) {
    forall i :: 0 <= i < |s| ==> s[i] != b
  }

  ghost predicate NoDelimiter(s: Bytes) {
    forall i :: 0 <= i < |s| ==> !EndsAuthority(s[i])
  }

  ghost predicate InsideAuthority(s: Bytes) {
    NoDelimiter(s) && Without(s, AT)
  }

  datatype Uri = Uri(scheme: Bytes, userinfo: Option<Bytes>, host: Host, tail: Bytes) {
    ghost function Authority(): Bytes {
      if userinfo.None? then host.Text() else userinfo.value + ([AT] + host.Text())
    }

    ghost function Text(): Bytes {
      scheme + ([COLON, SLASH, SLASH] + (Authority() + tail))
    }

    /** The scheme has no separator in it, nothing up to the tail ends the authority, and the tail does. */
    ghost predicate WellFormed() {
      && (forall i: nat :: !IsSeparator(scheme, i))
      && (userinfo.Some? ==> NoDelimiter(userinfo.value))
      && host.WellFormed()
      && (tail != [] ==> EndsAuthority(tail[0]))
    }
  }

  // ----- extraction undoes assembly

  lemma NamedHostText(host: Host)
    requires host.WellFormed()
    ensures host.Text() != [] && InsideAuthority(host.Text())
    ensures HostOfHostAndPort(host.Text()) == Some(host.name)
  {
    var text := host.Text();
    match host
    case Named(name, None) =>
      AfterLastUnique(text, COLON, 0);
    case Named(name, Some(port)) =>
      AfterLastUnique(text, COLON, |name| + 1);
      assert text[..|name|] == name;
    case Bracketed(name, after) =>
      IndexOfUnique(text, CLOSE_BRACKET, |name| + 1);
      assert text[1..|name| + 1] == name;
  }

  lemma AuthorityText(uri: Uri)
    requires uri.WellFormed()
    ensures NoDelimiter(uri.Authority())
    ensures HostOfAuthority(uri.Authority()) == Some(uri.host.name)
  {
    NamedHostText(uri.host);
    if uri.userinfo.None? {
      AfterLastUnique(uri.Authority(), AT, 0);
      assert uri.Authority()[0..] == uri.host.Text();
    } else {
      AfterAt(uri.userinfo.value, uri.host.Text());
    }
  }

  lemma AfterAt(before: Bytes, after: Bytes)
    requires Without(after, AT) && NoDelimiter(before) && NoDelimiter(after)
    ensures var s := before + ([AT] + after);
      AfterLast(s, AT) == |before| + 1 && s[|before| + 1..] == after && NoDelimiter(s)
  {
    AfterLastUnique(before + ([AT] + after), AT, |before| + 1);
  }

  lemma FindSeparatorUnique(s: Bytes, k: nat)
    requires k < |s| && IsSeparator(s, k) && forall i: nat :: i < k ==> !IsSeparator(s, i)
    ensures FindSeparator(s) == k
  {
  }

  lemma AuthorityEndUnique(s: Bytes, k: nat)
    requires k <= |s| && (forall i :: 0 <= i < k ==> !EndsAuthority(s[i])) && (k < |s| ==> EndsAuthority(s[k]))
    ensures AuthorityEnd(s) == k
  {
  }

  lemma SeparatorOfText(scheme: Bytes, rest: Bytes)
    requires forall i: nat :: !IsSeparator(scheme, i)
    ensures var text := scheme + ([COLON, SLASH, SLASH] + rest);
      FindSeparator(text) == |scheme| && text[|scheme| + 3..] == rest
  {
    var text := scheme + ([COLON, SLASH, SLASH] + rest);
    forall i: nat | i < |scheme| ensures !IsSeparator(text, i) {
      assert !IsSeparator(scheme, i);
    }
    assert IsSeparator(text, |scheme|);
    FindSeparatorUnique(text, |scheme|);
  }

  lemma AuthorityOfText(authority: Bytes, tail: Bytes)
    requires NoDelimiter(authority) && (tail != [] ==> EndsAuthority(tail[0]))
    ensures AuthorityEnd(authority + tail) == |authority|
    ensures (authority + tail)[..|authority|] == authority
  {
    AuthorityEndUnique(authority + tail, |authority|);
  }

  /** The host of an assembled URI is the lowercased host it was assembled from. */
  lemma ExtractUndoesAssembly(uri: Uri)
    requires uri.WellFormed() && IsUtf8(uri.Text())
    ensures ExtractHost(uri.Text()) == Some(Fold(uri.host.name))
  {
    SeparatorOfText(uri.scheme, uri.Authority() + uri.tail);
    AuthorityText(uri);
    AuthorityOfText(uri.Authority(), uri.tail);
  }

  // ----- and nothing but assembled URIs has a host

  lemma BracketedParts(s: Bytes, end: nat)
    requires InsideAuthority(s) && s != [] && s[0] == OPEN_BRACKET
    requires end == IndexOf(s, CLOSE_BRACKET) && 1 < end < |s|
    ensures Bracketed(s[1..end], s[end + 1..]).WellFormed()
    ensures Bracketed(s[1..end], s[end + 1..]).Text() == s
  {
    assert s == [s[0]] + (s[1..end] + ([s[end]] + s[end + 1..]));
  }

  lemma PortParts(s: Bytes, colon: nat)
    requires InsideAuthority(s) && s != [] && s[0] != OPEN_BRACKET
    requires 0 < colon && colon + 1 == AfterLast(s, COLON)
    ensures Named(s[..colon], Some(s[colon + 1..])).WellFormed()
    ensures Named(s[..colon], Some(s[colon + 1..])).Text() == s
  {
    Cut(s, colon);
  }

  lemma HostAndPortParts(hostAndPort: Bytes) returns (host: Host)
    requires InsideAuthority(hostAndPort) && hostAndPort != []
    requires HostOfHostAndPort(hostAndPort).Some? && HostOfHostAndPort(hostAndPort).value != []
    ensures host.WellFormed() && host.Text() == hostAndPort
    ensures Some(host.name) == HostOfHostAndPort(hostAndPort)
  {
    var end, afterColon := IndexOf(hostAndPort, CLOSE_BRACKET), AfterLast(hostAndPort, COLON);
    if hostAndPort[0] == OPEN_BRACKET {
      BracketedParts(hostAndPort, end);
      host := Bracketed(hostAndPort[1..end], hostAndPort[end + 1..]);
    } else if afterColon > 0 {
      PortParts(hostAndPort, afterColon - 1);
      host := Named(hostAndPort[..afterColon - 1], Some(hostAndPort[afterColon..]));
    } else {
      host := Named(hostAndPort, None);
    }
  }

  lemma AuthorityParts(authority: Bytes) returns (userinfo: Option<Bytes>, host: Host)
    requires NoDelimiter(authority) && HostOfAuthority(authority).Some?
    ensures host.WellFormed() && Some(host.name) == HostOfAuthority(authority)
    ensures userinfo.Some? ==> NoDelimiter(userinfo.value)
    ensures authority == if userinfo.None? then host.Text() else userinfo.value + ([AT] + host.Text())
  {
    var k := AfterLast(authority, AT);
    host := HostAndPortParts(authority[k..]);
    if k > 0 {
      Cut(authority, k - 1);
      assert authority[k - 1] == AT;
      userinfo := Some(authority[..k - 1]);
    } else {
      userinfo := None;
    }
  }

  lemma UriParts(text: Bytes) returns (uri: Uri)
    requires ExtractHost(text).Some?
    ensures uri.WellFormed() && uri.Text() == text
    ensures ExtractHost(text) == Some(Fold(uri.host.name))
  {
    var k := FindSeparator(text);
    var afterScheme := text[k + 3..];
    var end := AuthorityEnd(afterScheme);
    var authority, tail := afterScheme[..end], afterScheme[end..];
    var userinfo, host := AuthorityParts(authority);
    uri := Uri(text[..k], userinfo, host, tail);
    assert uri.Authority() == authority;
    SchemeHasNoSeparator(text, k);
    CutSeparator(text, k);
    Rejoin(afterScheme, end);
  }

  lemma SchemeHasNoSeparator(text: Bytes, k: nat)
    requires k <= |text| && forall i: nat :: i < k ==> !IsSeparator(text, i)
    ensures forall i: nat :: !IsSeparator(text[..k], i)
  {
    forall i: nat ensures !IsSeparator(text[..k], i) {
      assert i + 3 <= k ==> !IsSeparator(text, i);
    }
  }

  lemma CutSeparator(text: Bytes, k: nat)
    requires IsSeparator(text, k)
    ensures text == text[..k] + ([COLON, SLASH, SLASH] + text[k + 3..])
  {
  }

  lemma Rejoin(s: Bytes, k: nat)
    requires k <= |s|
    ensures s[..k] + s[k..] == s
  {
  }

  /** A text has a host exactly when it can be assembled around that host. */
  lemma ExtractExactly(text: Bytes, host: Bytes)
    ensures ExtractHost(text) == Some(host)
      <==> IsUtf8(text) && exists uri: Uri :: uri.WellFormed() && uri.Text() == text && Fold(uri.host.name) == host
  {
    if ExtractHost(text) == Some(host) {
      var uri := UriParts(text);
    }
    if uri: Uri :| IsUtf8(text) && uri.WellFormed() && uri.Text() == text && Fold(uri.host.name) == host {
      ExtractUndoesAssembly(uri);
    }
  }

  /** A URI satisfies a constraint exactly when its host is a name, not an address, that does. */
  lemma UriMatchesAsItsHost(uri: Uri, constraint: Bytes, isIpAddress: IpAddressTest)
    requires uri.WellFormed() && IsUtf8(uri.Text())
    ensures UriNameMatches(uri.Text(), constraint, isIpAddress)
      <==> !isIpAddress(Fold(uri.host.name)) && DnsNameMatches(uri.host.name, constraint)
  {
    ExtractUndoesAssembly(uri);
    MatchingIgnoresCase(uri.host.name, constraint);
  }

  // ----- UTF-8

  lemma CharWidthOfPrefix(a: Bytes, b: Bytes)
    requires CharWidth(a) > 0
    ensures CharWidth(a + b) == CharWidth(a)
  {
  }

  /** Texts put together are a text. */
  lemma {:induction false} Utf8Concat(a: Bytes, b: Bytes)
    requires IsUtf8(a) && IsUtf8(b)
    ensures IsUtf8(a + b)
    decreases |a|
  {
    if a == [] {
      NothingAdded(b);
    } else {
      var w := CharWidth(a);
      CharWidthOfPrefix(a, b);
      assert (a + b)[w..] == a[w..] + b;
      Utf8Concat(a[w..], b);
    }
  }

  lemma AsciiText(b: Byte)
    requires b < 0x80
    ensures IsUtf8([b])
  {
    assert [b][1..] == [];
  }

  ghost predicate MadeOfTexts(uri: Uri) {
    && IsUtf8(uri.scheme) && (uri.userinfo.Some? ==> IsUtf8(uri.userinfo.value))
    && IsUtf8(uri.host.name) && IsUtf8(uri.tail)
    && match uri.host
       case Named(_, port) => port.Some? ==> IsUtf8(port.value)
       case Bracketed(_, after) => IsUtf8(after)
  }

  lemma HostIsText(uri: Uri)
    requires MadeOfTexts(uri)
    ensures IsUtf8(uri.host.Text())
  {
    match uri.host
    case Named(name, None) =>
    case Named(name, Some(port)) =>
      AsciiText(COLON);
      Utf8Concat([COLON], port);
      Utf8Concat(name, [COLON] + port);
    case Bracketed(name, after) =>
      AsciiText(OPEN_BRACKET);
      AsciiText(CLOSE_BRACKET);
      Utf8Concat([CLOSE_BRACKET], after);
      Utf8Concat(name, [CLOSE_BRACKET] + after);
      Utf8Concat([OPEN_BRACKET], name + ([CLOSE_BRACKET] + after));
  }

  /** A URI assembled from texts is a text, so that its host can be extracted. */
  lemma AssembledTextIsUtf8(uri: Uri)
    requires MadeOfTexts(uri)
    ensures IsUtf8(uri.Text())
  {
    HostIsText(uri);
    if uri.userinfo.Some? {
      AsciiText(AT);
      Utf8Concat([AT], uri.host.Text());
      Utf8Concat(uri.userinfo.value, [AT] + uri.host.Text());
    }
    Utf8Concat(uri.Authority(), uri.tail);
    AsciiText(COLON);
    AsciiText(SLASH);
    Utf8Concat([COLON], [SLASH]);
    Utf8Concat([COLON, SLASH], [SLASH]);
    assert [COLON] + [SLASH] == [COLON, SLASH] && [COLON, SLASH] + [SLASH] == [COLON, SLASH, SLASH];
    Utf8Concat([COLON, SLASH, SLASH], uri.Authority() + uri.tail);
    Utf8Concat(uri.scheme, [COLON, SLASH, SLASH] + (uri.Authority() + uri.tail));
  }
}
