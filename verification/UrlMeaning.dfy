/**
 What a valid URL is printed as, component by component, and when it is valid; which ports are left out; and which
 tuples are origins. Names and numbers are written out.
 */
module UrlMeaning {
  import opened Bytes
  import opened Characters
  import opened Numbers
  import opened EtcSpec
  import opened EtcCharacters
  import opened IPv4
  import opened HostSpec
  import opened PathSpec
  import opened PathIdempotence
  import opened UrlText
  import opened StandardUrlSpec
  import opened SchemeHostPortSpec

  // ---- Default ports -----------------------------------------------------------

  predicate IsDefaultPort(scheme: bytes, n: nat) {
    || (scheme == Ascii("http") && n == 80) || (scheme == Ascii("https") && n == 443)
    || (scheme == Ascii("ws") && n == 80) || (scheme == Ascii("wss") && n == 443)
    || (scheme == Ascii("ftp") && n == 21) || (scheme == Ascii("gopher") && n == 70)
  }

  lemma Names()
    ensures HTTP == Ascii("http") && HTTPS == Ascii("https") && FTP == Ascii("ftp") && GOPHER == Ascii("gopher")
    ensures WS == Ascii("ws") && WSS == Ascii("wss") && FILE == Ascii("file") && FILESYSTEM == Ascii("filesystem")
  {
  }

  lemma DefaultPortIs(scheme: bytes, n: nat)
    ensures DefaultPortForScheme(scheme) == Port(n) <==> IsDefaultPort(scheme, n)
  {
    Names();
  }

  /** For every URL with a port: a number is printed in decimal if and only if it is not the default of the scheme. */
  lemma PrintedPortIs(src: Source)
    requires !NeedsIdn(src.host.GetOr([])) && src.port.Some? && PortValue(src.port.value).Some?
    ensures var c, n := CanonicalURL(src).parts, PortValue(src.port.value).value;
      |src.port.value| > 0 ==> c.port == if IsDefaultPort(c.scheme, n) then None else Some(Decimal(n))
  {
    var scheme := Scheme(src.scheme.GetOr([])).text;
    PortIsNumber(src.port.value, DefaultPortForScheme(scheme));
    DefaultPortIs(scheme, PortValue(src.port.value).value);
  }

  // ---- The whole URL -------------------------------------------------------------

  predicate PortIsValid(port: Option<bytes>) { |port.GetOr([])| > 0 ==> PortValue(port.value).Some? }

  lemma PortVerdict(port: Option<bytes>, defaultPort: Port)
    requires !defaultPort.Invalid?
    ensures CanonicalPort(port, defaultPort).ok <==> PortIsValid(port)
  {
    PortIsNumber(port.GetOr([]), defaultPort);
  }

  /** When a URL is valid: by its scheme, its host, its port and its path. Everything else can be anything. */
  lemma ValidUrlIff(src: Source)
    requires !NeedsIdn(src.host.GetOr([]))
    ensures CanonicalURL(src).ok <==>
      && IsScheme(src.scheme.GetOr([]))
      && |src.host.GetOr([])| > 0 && CanonicalHost(src.host.value).family != BROKEN
      && PortIsValid(src.port)
      && NoNul(src.path.GetOr([]))
  {
    var scheme := Scheme(src.scheme.GetOr([])).text;
    SchemeIsLowerCase(src.scheme.GetOr([]));
    PortVerdict(src.port, DefaultPortForScheme(scheme));
    FirstVerdict(src.path.GetOr([]));
    assert WrittenPath(src).ok == CanonicalPath(src.path.GetOr([])).ok;
  }

  /** A text that is printed if there are characters in it, or if it must be there. */
  predicate PrintsText(printed: Option<bytes>, t: bytes, present: bool) {
    (printed.Some? <==> present) && (printed.Some? ==> Decoded(printed.value) == Decoded(t))
  }

  /** The port that is printed: none for the default, the number for any other, and what is no number as it was. */
  predicate PrintsPort(printed: Option<bytes>, port: bytes, scheme: bytes) {
    if |port| == 0 then printed == None
    else
      match PortValue(port)
      case None => printed == Some(EscapedBut(port, InInvalidPort))
      case Some(n) => printed == if IsDefaultPort(scheme, n) then None else Some(Decimal(n))
  }

  /** The user info of a URL. */
  predicate PrintsUserInfo(c: Parts, user: bytes, pass: bytes) {
    PrintsText(c.username, user, |user| > 0 || |pass| > 0) && PrintsText(c.password, pass, |pass| > 0)
  }

  lemma PortIsPrinted(src: Source)
    requires !NeedsIdn(src.host.GetOr([]))
    ensures PrintsPort(CanonicalURL(src).parts.port, src.port.GetOr([]), CanonicalURL(src).parts.scheme)
  {
    var port, default := src.port.GetOr([]), DefaultPortForScheme(Scheme(src.scheme.GetOr([])).text);
    PortIsNumber(port, default);
    if |port| > 0 {
      if PortValue(port).Some? { PrintedPortIs(src); } else { InvalidPortIsKept(port, default); }
    }
  }

  /** What is printed for a URL, valid or not. Nothing is lost: user name, password, query and reference decode to what
      they were (the reference without its NULs), the scheme is in lower case, and the port a number unless it is the
      default. A path is made up where there is an authority or something behind the path. */
  lemma UrlMeans(src: Source)
    requires !NeedsIdn(src.host.GetOr([]))
    ensures var c := CanonicalURL(src).parts;
      var authority := src.username.Some? || src.password.Some? || |src.host.GetOr([])| > 0 || src.port.Some?;
      && c.scheme == SchemeShown(src.scheme.GetOr([]), true)
      && (IsScheme(src.scheme.GetOr([])) ==> c.scheme == LowerCase(src.scheme.GetOr([])))
      && (c.slashes <==> src.scheme.Some? && authority)
      && PrintsUserInfo(c, src.username.GetOr([]), src.password.GetOr([]))
      && c.host == (if |src.host.GetOr([])| > 0 then Some(CanonicalHost(src.host.value).text) else None)
      && PrintsPort(c.port, src.port.GetOr([]), c.scheme)
      && c.path == (if src.path.Some? then Some(CanonicalPath(src.path.value).out)
                    else if authority || src.query.Some? || src.ref.Some? then Some(Ascii("/"))
                    else None)
      && PrintsText(c.query, src.query.GetOr([]), src.query.Some?)
      && PrintsText(c.ref, WithoutNuls(src.ref.GetOr([])), src.ref.Some?)
  {
    SchemeIsLowerCase(src.scheme.GetOr([]));
    SchemeIsShown(src.scheme.GetOr([]));
    UserInfoIsKept(src.username, src.password);
    QueryIsKept(src.query);
    RefIsKept(src.ref);
    PortIsPrinted(src);
    assert Ascii("/") == [SLASH];
  }

  // ---- Origins ---------------------------------------------------------------------

  predicate HasPorts(name: bytes) {
    name == Ascii("http") || name == Ascii("https") || name == Ascii("ws") || name == Ascii("wss")
    || name == Ascii("ftp") || name == Ascii("gopher")
  }

  lemma LowerCaseIs(s: bytes, name: bytes)
    ensures LowerCaseEquals(s, name) <==> LowerCase(s) == name
  {
    assert forall k :: 0 <= k < |s| ==> LowerCase(s)[k] == ToLower(s[k]);
  }

  /** Which schemes are standard, in whatever case. */
  lemma SchemeTypeIs(scheme: bytes)
    ensures StandardSchemeType(scheme) ==
      var name := LowerCase(scheme);
      if HasPorts(name) then Some(WithPort)
      else if name == Ascii("file") then Some(WithoutPort)
      else if name == Ascii("filesystem") then Some(WithoutAuthority)
      else None
  {
    Names();
    LowerCaseIs(scheme, HTTP);
    LowerCaseIs(scheme, HTTPS);
    LowerCaseIs(scheme, FILE);
    LowerCaseIs(scheme, FTP);
    LowerCaseIs(scheme, GOPHER);
    LowerCaseIs(scheme, WS);
    LowerCaseIs(scheme, WSS);
    LowerCaseIs(scheme, FILESYSTEM);
  }

  /** The canonicalizer accepts the host and leaves it as it is. */
  predicate HostStays(host: bytes)
    requires !NeedsIdn(host)
  {
    CanonicalHost(host).family != BROKEN && CanonicalHost(host).text == host
  }

  /** Which tuples are valid: those with a port and a host for most schemes, those without a port for files. */
  lemma OriginIff(t: Tuple)
    requires !NeedsIdn(t.host) && t.port <= 0xFFFF
    ensures IsOrigin(t) <==>
      || (HasPorts(LowerCase(t.scheme)) && t.port > 0 && |t.host| > 0 && HostStays(t.host))
      || (LowerCase(t.scheme) == Ascii("file") && t.port == 0 && (|t.host| == 0 || HostStays(t.host)))
  {
    SchemeTypeIs(t.scheme);
    Names();
    RuledOutByType();
    if |t.host| > 0 && CanonicalHost(t.host).family != BROKEN { HostKeepsShape(t.host); }
  }

  /** How an origin in lower case is serialized. */
  lemma SerializedIs(t: Tuple)
    requires IsOrigin(t) && IsLowerCase(t.scheme)
    ensures Serialized(t) ==
      t.scheme + Ascii("://") + t.host
      + if t.port == 0 || IsDefaultPort(t.scheme, t.port) then [] else Ascii(":") + Decimal(t.port)
  {
    assert Ascii("://") == SEPARATOR && Ascii(":") == [COLON];
    DefaultPortIs(t.scheme, t.port);
    SchemeTypeIs(t.scheme);
    if t.port != 0 { DefaultPortIsKnown(t.scheme); }
  }
}
