/** Hosts of URIs and well-formed texts, spelled out in bytes (RFC 3986 and RFC 3629). */
module UriText {
  import opened Wrappers
  import opened Bytes
  import opened Sequences
  import opened UriConstraints

  // ----- hosts

  /** None of / ? and #. */
  ghost predicate StaysInside(s: Bytes) {
    forall i :: 0 <= i < |s| ==> s[i] != 0x2F && s[i] != 0x3F && s[i] != 0x23
  }

  ghost predicate HasNo(s: Bytes, b: Byte) {
    forall i :: 0 <= i < |s| ==> s[i] != b
  }

  /** Nothing, or what begins with / ? or #. */
  ghost predicate IsTail(s: Bytes) {
    s == [] || s[0] == 0x2F || s[0] == 0x3F || s[0] == 0x23
  }

  /** What may stand before the host: nothing, or user information and @. */
  ghost function Before(userinfo: Option<Bytes>): Bytes {
    if userinfo.Some? then userinfo.value + [0x40] else []
  }

  ghost function After(port: Option<Bytes>): Bytes {
    if port.Some? then [0x3A] + port.value else []
  }

  /** scheme://userinfo@host:port and a tail has this host, in lower case. */
  lemma NamedHostInText(scheme: Bytes, userinfo: Option<Bytes>, host: Bytes, port: Option<Bytes>, tail: Bytes)
    requires HasNo(scheme, 0x3A) && IsTail(tail)
    requires userinfo.Some? ==> StaysInside(userinfo.value)
    requires host != [] && StaysInside(host) && HasNo(host, 0x40) && HasNo(host, 0x3A) && host[0] != 0x5B
    requires port.Some? ==> StaysInside(port.value) && HasNo(port.value, 0x40) && HasNo(port.value, 0x3A)
    ensures var text := scheme + ([0x3A, 0x2F, 0x2F] + ((Before(userinfo) + (host + After(port))) + tail));
      IsUtf8(text) ==> ExtractHost(text) == Some(Fold(host))
  {
    var uri := Uri(scheme, userinfo, Named(host, port), tail);
    NothingAdded(host);
    NothingAdded(uri.host.Text());
    if userinfo.Some? {
      Reassociate(userinfo.value, [0x40], uri.host.Text());
    }
    assert Before(userinfo) + (host + After(port)) == uri.Authority();
    if IsUtf8(uri.Text()) {
      ExtractUndoesAssembly(uri);
    }
  }

  /** A host in brackets may have colons in it. */
  lemma BracketedHostInText(scheme: Bytes, userinfo: Option<Bytes>, host: Bytes, after: Bytes, tail: Bytes)
    requires HasNo(scheme, 0x3A) && IsTail(tail)
    requires userinfo.Some? ==> StaysInside(userinfo.value)
    requires host != [] && StaysInside(host) && HasNo(host, 0x40) && HasNo(host, 0x5D)
    requires StaysInside(after) && HasNo(after, 0x40)
    ensures var authority := Before(userinfo) + ([0x5B] + (host + ([0x5D] + after)));
      var text := scheme + ([0x3A, 0x2F, 0x2F] + (authority + tail));
      IsUtf8(text) ==> ExtractHost(text) == Some(Fold(host))
  {
    var uri := Uri(scheme, userinfo, Bracketed(host, after), tail);
    NothingAdded(uri.host.Text());
    if userinfo.Some? {
      Reassociate(userinfo.value, [0x40], uri.host.Text());
    }
    assert Before(userinfo) + ([0x5B] + (host + ([0x5D] + after))) == uri.Authority();
    if IsUtf8(uri.Text()) {
      ExtractUndoesAssembly(uri);
    }
  }

  // ----- texts

  ghost predicate IsScalar(c: nat) {
    c < 0xD800 || 0xE000 <= c <= 0x10FFFF
  }

  /** The values of the bytes that encode a character. */
  ghost function EncodeScalar(c: nat): (values: seq<nat>)
    requires IsScalar(c)
    ensures values != []
  {
    if c < 0x80 then [c]
    else if c < 0x800 then [0xC0 + c / 64, 0x80 + c % 64]
    else if c < 0x10000 then [0xE0 + c / 64 / 64, 0x80 + c / 64 % 64, 0x80 + c % 64]
    else [0xF0 + c / 64 / 64 / 64, 0x80 + c / 64 / 64 % 64, 0x80 + c / 64 % 64, 0x80 + c % 64]
  }

  ghost predicate AreScalars(text: seq<nat>) {
    forall i :: 0 <= i < |text| ==> IsScalar(text[i])
  }

  ghost function EncodeAll(text: seq<nat>): seq<nat>
    requires AreScalars(text)
  {
    if text == [] then [] else EncodeScalar(text[0]) + EncodeAll(text[1..])
  }

  ghost function Values(s: Bytes): (values: seq<nat>)
    ensures |values| == |s|
    ensures forall i :: 0 <= i < |s| ==> values[i] == s[i] as nat
  {
    seq(|s|, i requires 0 <= i < |s| => s[i] as nat)
  }

  /** What the first bytes encode, if anything, by value. */
  ghost function DecodeFirst(v: seq<nat>): (c: Option<nat>)
    ensures c.Some? ==> IsScalar(c.value)
  {
    if v == [] then None
    else if v[0] < 0x80 then Some(v[0])
    else if |v| < 2 || !(0x80 <= v[1] < 0xC0) then None
    else if 0xC2 <= v[0] < 0xE0 then Some((v[0] - 0xC0) * 64 + (v[1] - 0x80))
    else if |v| < 3 || !(0x80 <= v[2] < 0xC0) then None
    else if 0xE0 <= v[0] < 0xF0 then
      var c := (v[0] - 0xE0) * 4096 + (v[1] - 0x80) * 64 + (v[2] - 0x80);
      if c >= 0x800 && IsScalar(c) then Some(c) else None
    else if |v| < 4 || !(0x80 <= v[3] < 0xC0) || !(0xF0 <= v[0] < 0xF5) then None
    else
      var c := (v[0] - 0xF0) * 262144 + (v[1] - 0x80) * 4096 + (v[2] - 0x80) * 64 + (v[3] - 0x80);
      if c >= 0x10000 && IsScalar(c) then Some(c) else None
  }

  lemma ScalarDecodes(c: nat, rest: seq<nat>)
    requires IsScalar(c)
    ensures DecodeFirst(EncodeScalar(c) + rest) == Some(c)
  {
    var x, y := c / 64, c / 64 / 64;
    assert c == 64 * x + c % 64 && x == 64 * y + x % 64 && y == 64 * (y / 64) + y % 64;
    var v := EncodeScalar(c) + rest;
    if c < 0x80 {
      assert v[0] == c;
    } else if c < 0x800 {
      assert v[0] == 0xC0 + x && v[1] == 0x80 + c % 64;
    } else if c < 0x10000 {
      assert v[0] == 0xE0 + y && v[1] == 0x80 + x % 64 && v[2] == 0x80 + c % 64;
    } else {
      assert v[0] == 0xF0 + y / 64 && v[1] == 0x80 + y % 64 && v[2] == 0x80 + x % 64 && v[3] == 0x80 + c % 64;
    }
  }

  lemma DigitsBack(z: nat, b: nat)
    requires b < 64
    ensures (64 * z + b) / 64 == z && (64 * z + b) % 64 == b
  {
  }

  lemma ThreeDigitsBack(x: nat, y: nat, z: nat)
    requires y < 64 && z < 64
    ensures var c := x * 4096 + y * 64 + z; c / 64 / 64 == x && c / 64 % 64 == y && c % 64 == z
  {
    DigitsBack(x * 64 + y, z);
    DigitsBack(x, y);
  }

  lemma FourDigitsBack(w: nat, x: nat, y: nat, z: nat)
    requires x < 64 && y < 64 && z < 64
    ensures var c := w * 262144 + x * 4096 + y * 64 + z;
      c / 64 / 64 / 64 == w && c / 64 / 64 % 64 == x && c / 64 % 64 == y && c % 64 == z
  {
    DigitsBack((w * 64 + x) * 64 + y, z);
    ThreeDigitsBack(w, x, y);
  }

  lemma DecodedEncodes(v: seq<nat>)
    requires DecodeFirst(v).Some?
    ensures var w := EncodeScalar(DecodeFirst(v).value);
      |w| <= |v| && w == v[..|w|]
  {
    if v[0] < 0x80 {
    } else if v[0] < 0xE0 {
      DigitsBack(v[0] - 0xC0, v[1] - 0x80);
    } else if v[0] < 0xF0 {
      ThreeDigitsBack(v[0] - 0xE0, v[1] - 0x80, v[2] - 0x80);
    } else {
      FourDigitsBack(v[0] - 0xF0, v[1] - 0x80, v[2] - 0x80, v[3] - 0x80);
    }
  }

  lemma WidthIsOfScalar(s: Bytes)
    ensures var c := DecodeFirst(Values(s));
      CharWidth(s) == if c.Some? then |EncodeScalar(c.value)| else 0
  {
  }

  lemma ValuesFrom(s: Bytes, k: nat)
    requires k <= |s|
    ensures Values(s[k..]) == Values(s)[k..]
  {
  }

  /** A text is well formed exactly when it encodes characters. */
  lemma {:induction false} Utf8Exactly(s: Bytes)
    ensures IsUtf8(s) <==> exists text :: AreScalars(text) && Values(s) == EncodeAll(text)
    decreases |s|
  {
    var first := DecodeFirst(Values(s));
    WidthIsOfScalar(s);
    if s == [] {
      assert AreScalars([]) && Values(s) == EncodeAll([]);
    } else if first.Some? {
      var w := |EncodeScalar(first.value)|;
      DecodedEncodes(Values(s));
      Utf8Exactly(s[w..]);
      ValuesFrom(s, w);
      TextFrom(Values(s), w, first.value);
    } else {
      forall text | AreScalars(text) && Values(s) == EncodeAll(text) ensures false {
        FirstDecodes(text);
      }
    }
  }

  lemma FirstDecodes(text: seq<nat>)
    requires AreScalars(text) && text != []
    ensures DecodeFirst(EncodeAll(text)) == Some(text[0])
  {
    ScalarDecodes(text[0], EncodeAll(text[1..]));
  }

  /** Dropping the first character of a text. */
  lemma TextFrom(v: seq<nat>, w: nat, c: nat)
    requires DecodeFirst(v) == Some(c) && w == |EncodeScalar(c)| && w <= |v| && v[..w] == EncodeScalar(c)
    ensures (exists text :: AreScalars(text) && v == EncodeAll(text))
      <==> exists text :: AreScalars(text) && v[w..] == EncodeAll(text)
  {
    assert v == v[..w] + v[w..];
    forall text | AreScalars(text) && v[w..] == EncodeAll(text)
      ensures AreScalars([c] + text) && v == EncodeAll([c] + text)
    {
      assert ([c] + text)[1..] == text;
    }
    forall text | AreScalars(text) && v == EncodeAll(text)
      ensures AreScalars(text[1..]) && v[w..] == EncodeAll(text[1..])
    {
      assert text != [];
      FirstDecodes(text);
    }
  }
}
