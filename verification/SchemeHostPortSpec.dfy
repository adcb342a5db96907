/**
 Origins (scheme_host_port.cc): which tuples of scheme, host and port are valid, how they are serialized, and when the
 serialization tells them apart.
 */
module SchemeHostPortSpec {
  import opened Bytes
  import opened Components
  import opened Numbers
  import opened EtcSpec
  import opened IPv4
  import opened HostSpec
  import opened UrlText
  import opened StandardUrlSpec
  import opened RelativeSpec

  // ---- kStandardURLSchemes ---------------------------------------------------

  const FILE: bytes := [0x66, 0x69, 0x6C, 0x65]
  const FILESYSTEM: bytes := [0x66, 0x69, 0x6C, 0x65, 0x73, 0x79, 0x73, 0x74, 0x65, 0x6D]
  const BLOB: bytes := [0x62, 0x6C, 0x6F, 0x62]

  datatype SchemeType = WithPort | WithoutPort | WithoutAuthority

  function ToLower(c: byte): byte { if IsUpper(c) then c + 0x20 else c }

  /** LowerCaseEqualsASCII. */
  predicate LowerCaseEquals(s: bytes, name: bytes) {
    |s| == |name| && forall k :: 0 <= k < |s| ==> ToLower(s[k]) == name[k]
  }

  /** GetStandardSchemeType, with the built-in schemes. The case of the letters does not matter. */
  function StandardSchemeType(scheme: bytes): Option<SchemeType> {
    if LowerCaseEquals(scheme, HTTP) || LowerCaseEquals(scheme, HTTPS) then Some(WithPort)
    else if LowerCaseEquals(scheme, FILE) then Some(WithoutPort)
    else if LowerCaseEquals(scheme, FTP) || LowerCaseEquals(scheme, GOPHER) then Some(WithPort)
    else if LowerCaseEquals(scheme, WS) || LowerCaseEquals(scheme, WSS) then Some(WithPort)
    else if LowerCaseEquals(scheme, FILESYSTEM) then Some(WithoutAuthority)
    else None
  }

  // ---- IsValidInput ----------------------------------------------------------

  predicate IsCanonicalHost(host: bytes)
    requires !NeedsIdn(host)
  {
    host == if |host| > 0 && CanonicalHost(host).family != BROKEN then CanonicalHost(host).text else []
  }

  datatype Tuple = Tuple(scheme: bytes, host: bytes, port: nat)

  const INVALID := Tuple([], [], 0)

  predicate IsValidInput(t: Tuple)
    requires !NeedsIdn(t.host)
  {
    && t.scheme != FILESYSTEM && t.scheme != BLOB
    && match StandardSchemeType(t.scheme)
       case Some(WithPort) => |t.host| > 0 && t.port != 0 && IsCanonicalHost(t.host)
       case Some(WithoutPort) => t.port == 0 && IsCanonicalHost(t.host)
       case _ => false
  }

  /** A valid tuple, with a port of 16 bits and a host that is not left to the IDN conversion. */
  predicate IsOrigin(t: Tuple) { !NeedsIdn(t.host) && t.port <= 0xFFFF && IsValidInput(t) }

  // ---- Serialize -------------------------------------------------------------

  const SEPARATOR: bytes := [COLON, SLASH, SLASH]

  /** The port that is written: none for the default port of the scheme, and none at all if there is no default. */
  function WrittenPort(t: Tuple): Option<bytes> {
    var default := DefaultPortForScheme(t.scheme);
    if t.port == 0 || default == Unspecified || default == Port(t.port) then None else Some(Decimal(t.port))
  }

  function Serialized(t: Tuple): bytes {
    if t == INVALID then [] else t.scheme + SEPARATOR + t.host + WithMark(COLON, WrittenPort(t))
  }

  // ---- When the serialization is faithful ------------------------------------

  lemma StandardIsLetters(scheme: bytes)
    requires StandardSchemeType(scheme).Some?
    ensures |scheme| > 0 && forall k :: 0 <= k < |scheme| ==> IsLower(scheme[k]) || IsUpper(scheme[k])
  {
    forall k | 0 <= k < |scheme| ensures IsLower(scheme[k]) || IsUpper(scheme[k]) { assert IsLower(ToLower(scheme[k])); }
  }

  predicate IsLowerCase(s: bytes) { forall k :: 0 <= k < |s| ==> !IsUpper(s[k]) }

  lemma LowerCaseIsEqual(s: bytes, name: bytes)
    requires IsLowerCase(name)
    ensures IsLowerCase(s) && LowerCaseEquals(s, name) <==> s == name
  {
    if LowerCaseEquals(s, name) && IsLowerCase(s) { assert forall k :: 0 <= k < |s| ==> s[k] == name[k]; }
    if s == name { assert forall k :: 0 <= k < |s| ==> ToLower(s[k]) == name[k]; }
  }

  /** The default port is known to the code exactly if the scheme is written in lower case. */
  lemma DefaultPortIsKnown(scheme: bytes)
    requires StandardSchemeType(scheme) == Some(WithPort)
    ensures DefaultPortForScheme(scheme) != Unspecified <==> IsLowerCase(scheme)
  {
    LowerCaseIsEqual(scheme, HTTP);
    LowerCaseIsEqual(scheme, HTTPS);
    LowerCaseIsEqual(scheme, FTP);
    LowerCaseIsEqual(scheme, GOPHER);
    LowerCaseIsEqual(scheme, WS);
    LowerCaseIsEqual(scheme, WSS);
  }

  lemma OriginShape(t: Tuple)
    requires IsOrigin(t)
    ensures AllDigits(WrittenPort(t).GetOr([]), Dec)
    ensures |t.host| > 0 ==> HostShape(t.host)
    ensures |t.host| == 0 ==> WrittenPort(t) == None
  {
    DecimalValue(t.port);
    if |t.host| > 0 { HostKeepsShape(t.host); }
  }

  lemma SplitAlike(a: bytes, b: bytes, c: bytes, d: bytes)
    requires a + b == c + d
    ensures |a| == |c| ==> a == c && b == d
  {
    if |a| == |c| {
      assert a == (a + b)[..|a|] && c == (c + d)[..|c|];
      assert b == (a + b)[|a|..] && d == (c + d)[|c|..];
    }
  }

  lemma SameMark(a: Option<bytes>, b: Option<bytes>)
    requires WithMark(COLON, a) == WithMark(COLON, b)
    ensures a == b
  {
    if a.Some? && b.Some? { SplitAlike([COLON], a.value, [COLON], b.value); }
  }

  /** Host and port are told apart the way the parser does it. */
  lemma SameServer(h: bytes, p: Option<bytes>, g: bytes, q: Option<bytes>)
    requires HostShape(h) && AllDigits(p.GetOr([]), Dec) && HostShape(g) && AllDigits(q.GetOr([]), Dec)
    requires h + WithMark(COLON, p) == g + WithMark(COLON, q)
    ensures h == g && p == q
  {
    var s := h + WithMark(COLON, p);
    ServerSplits(s, 0, h, p);
    ServerSplits(s, 0, g, q);
    SplitAlike(h, WithMark(COLON, p), g, WithMark(COLON, q));
    SameMark(p, q);
  }

  lemma SameServerOfOrigins(t: Tuple, u: Tuple)
    requires IsOrigin(t) && IsOrigin(u)
    requires t.host + WithMark(COLON, WrittenPort(t)) == u.host + WithMark(COLON, WrittenPort(u))
    ensures t.host == u.host && WrittenPort(t) == WrittenPort(u)
  {
    OriginShape(t);
    OriginShape(u);
    if |t.host| > 0 && |u.host| > 0 { SameServer(t.host, WrittenPort(t), u.host, WrittenPort(u)); }
  }

  /** A scheme ends at the first colon. */
  lemma SameFront(a: bytes, x: bytes, b: bytes, y: bytes)
    requires COLON !in a && COLON !in b && a + SEPARATOR + x == b + SEPARATOR + y
    ensures a == b && x == y
  {
    var s := a + SEPARATOR + x;
    assert s[|a|] == COLON && s[|b|] == (b + SEPARATOR + y)[|b|] == COLON;
    assert forall k :: 0 <= k < |a| ==> s[k] == a[k];
    assert forall k :: 0 <= k < |b| ==> (b + SEPARATOR + y)[k] == b[k];
    SplitAlike(a + SEPARATOR, x, b + SEPARATOR, y);
    SplitAlike(a, SEPARATOR, b, SEPARATOR);
  }

  lemma SerializedParts(t: Tuple)
    requires IsOrigin(t)
    ensures COLON !in t.scheme && Serialized(t) == t.scheme + SEPARATOR + (t.host + WithMark(COLON, WrittenPort(t)))
  {
    StandardIsLetters(t.scheme);
    Regroup(t.scheme + SEPARATOR, t.host, WithMark(COLON, WrittenPort(t)));
  }

  lemma SameScheme(t: Tuple, u: Tuple)
    requires IsOrigin(t) && IsOrigin(u) && Serialized(t) == Serialized(u)
    ensures t.scheme == u.scheme && t.host + WithMark(COLON, WrittenPort(t)) == u.host + WithMark(COLON, WrittenPort(u))
  {
    SerializedParts(t);
    SerializedParts(u);
    SameFront(t.scheme, t.host + WithMark(COLON, WrittenPort(t)), u.scheme, u.host + WithMark(COLON, WrittenPort(u)));
  }

  lemma SamePort(t: Tuple, u: Tuple)
    requires IsOrigin(t) && IsOrigin(u) && t.scheme == u.scheme && WrittenPort(t) == WrittenPort(u)
    requires IsLowerCase(t.scheme) || t.port == 0
    ensures t.port == u.port
  {
    if StandardSchemeType(t.scheme) == Some(WithPort) { DefaultPortIsKnown(t.scheme); }
    DecimalValue(t.port);
    DecimalValue(u.port);
  }

  /** For an origin whose scheme is written in lower case: two origins serialize to the same text only if they are
      equal. */
  lemma SerializationIsFaithful(t: Tuple, u: Tuple)
    requires IsOrigin(t) && IsOrigin(u) && Serialized(t) == Serialized(u)
    requires IsLowerCase(t.scheme) || t.port == 0
    ensures t == u
  {
    SameScheme(t, u);
    SameServerOfOrigins(t, u);
    SamePort(t, u);
  }

  /** An origin is told apart from all others by its serialization if and only if its scheme is written in lower case
      or has no ports. With an upper-case letter in the scheme no default port is found, and no port is written. */
  lemma FaithfulIff(t: Tuple)
    requires IsOrigin(t)
    ensures IsLowerCase(t.scheme) || t.port == 0 <==>
      forall u :: IsOrigin(u) && Serialized(u) == Serialized(t) ==> u == t
  {
    if IsLowerCase(t.scheme) || t.port == 0 {
      forall u | IsOrigin(u) && Serialized(u) == Serialized(t) ensures u == t { SerializationIsFaithful(t, u); }
    } else {
      DefaultPortIsKnown(t.scheme);
      var u := t.(port := if t.port == 1 then 2 else 1);
      assert IsOrigin(u) && Serialized(u) == Serialized(t) && u != t;
    }
  }

  // ---- An origin and its URL -------------------------------------------------

  function UrlOf(t: Tuple): Source {
    Source(Some(t.scheme), None, None, Some(t.host), Some(Decimal(t.port)), None, None, None)
  }

  lemma LowerCaseSchemeIsFixed(scheme: bytes)
    requires StandardSchemeType(scheme).Some? && IsLowerCase(scheme)
    ensures Scheme(scheme) == Checked(scheme, true)
  {
    StandardIsLetters(scheme);
    assert IsSchemeText(scheme);
    SchemeTextIsFixed(scheme, 0);
    assert scheme[0..] == scheme;
  }

  lemma PartsOfOrigin(t: Tuple)
    requires IsOrigin(t) && IsLowerCase(t.scheme) && t.port != 0
    ensures CanonicalURL(UrlOf(t)) ==
      Canonical(Parts(t.scheme, true, None, None, Some(t.host), WrittenPort(t), Some([SLASH]), None, None), true)
  {
    LowerCaseSchemeIsFixed(t.scheme);
    DefaultPortIsKnown(t.scheme);
    DecimalPort(t.port);
  }

  /** An origin with a port, in lower case, is serialized as the canonical URL of its parts, without the path. */
  lemma SerializationIsUrl(t: Tuple)
    requires IsOrigin(t) && IsLowerCase(t.scheme) && t.port != 0
    ensures CanonicalURL(UrlOf(t)).ok && Text(CanonicalURL(UrlOf(t)).parts) == Serialized(t) + [SLASH]
  {
    PartsOfOrigin(t);
    OriginText(t.scheme, t.host, WrittenPort(t));
  }

  lemma OriginText(scheme: bytes, host: bytes, port: Option<bytes>)
    ensures Text(Parts(scheme, true, None, None, Some(host), port, Some([SLASH]), None, None))
      == scheme + SEPARATOR + host + WithMark(COLON, port) + [SLASH]
  {
    var c := Parts(scheme, true, None, None, Some(host), port, Some([SLASH]), None, None);
    assert Head(c) == scheme + SEPARATOR;
    assert AuthorityText(c) == host + WithMark(COLON, port);
    assert Tail(c) == [SLASH];
    Regroup(scheme + SEPARATOR, host, WithMark(COLON, port));
  }

  /** The two schemes that are ruled out by name have no ports anyway. */
  lemma RuledOutByType()
    ensures StandardSchemeType(BLOB) == None && StandardSchemeType(FILESYSTEM) == Some(WithoutAuthority)
  {
    assert ToLower(BLOB[0]) != HTTP[0] && ToLower(BLOB[0]) != FILE[0];
  }

  /** An ordinary name with a standard scheme and a port is an origin. */
  lemma PlainNameIsOrigin(scheme: bytes, name: bytes, port: nat)
    requires StandardSchemeType(scheme) == Some(WithPort) && IsPlainName(name) && 0 < port <= 0xFFFF
    ensures IsOrigin(Tuple(scheme, name, port))
  {
    PlainNameIsKept(name);
    RuledOutByType();
  }

  /** Its URL is a base that references can be resolved against. */
  lemma OriginIsBase(t: Tuple)
    requires IsOrigin(t) && IsLowerCase(t.scheme) && t.port != 0
    ensures IsBase(UrlOf(t), CanonicalURL(UrlOf(t)).parts)
  {
    PartsOfOrigin(t);
  }
}
