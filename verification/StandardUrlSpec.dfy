/**
 The canonical form of a standard URL (url_canon_stdurl.cc), given the texts of its components, and the two
 properties it is for: the printed URL is split into the parts it was printed from, and a second
 canonicalization changes nothing.
 */
module StandardUrlSpec {
  import opened Bytes
  import opened Components
  import opened EtcSpec
  import opened IPv4
  import opened HostSpec
  import opened PathSpec
  import opened PathInvariant
  import opened PathMended
  import opened PathIdempotence
  import opened ParseSpec
  import opened UrlText

  /** The texts of the components, None for one that is not there. */
  datatype Source = Source(
    scheme: Option<bytes>,
    username: Option<bytes>,
    password: Option<bytes>,
    host: Option<bytes>,
    port: Option<bytes>,
    path: Option<bytes>,
    query: Option<bytes>,
    ref: Option<bytes>)

  /** The components at their ranges in a string. */
  function SourceAt(s: bytes, p: Parsed): Source
    requires p.Within(s)
  {
    Source(p.scheme.Text(s), p.username.Text(s), p.password.Text(s), p.host.Text(s),
           p.port.Text(s), p.path.Text(s), p.query.Text(s), p.ref.Text(s))
  }

  // ---- DefaultPortForScheme ------------------------------------------------

  const HTTP: bytes := [0x68, 0x74, 0x74, 0x70]
  const HTTPS: bytes := [0x68, 0x74, 0x74, 0x70, 0x73]
  const FTP: bytes := [0x66, 0x74, 0x70]
  const WSS: bytes := [0x77, 0x73, 0x73]
  const GOPHER: bytes := [0x67, 0x6F, 0x70, 0x68, 0x65, 0x72]
  const WS: bytes := [0x77, 0x73]

  function DefaultPortForScheme(scheme: bytes): (port: Port)
    ensures !port.Invalid?
  {
    match |scheme|
    case 4 => if scheme == HTTP then Port(80) else Unspecified
    case 5 => if scheme == HTTPS then Port(443) else Unspecified
    case 3 => if scheme == FTP then Port(21) else if scheme == WSS then Port(443) else Unspecified
    case 6 => if scheme == GOPHER then Port(70) else Unspecified
    case 2 => if scheme == WS then Port(80) else Unspecified
    case _ => Unspecified
  }

  // ---- DoCanonicalizeStandardURL -------------------------------------------

  predicate HasHost(src: Source) { |src.host.GetOr([])| > 0 }

  predicate HasAuthority(src: Source) { src.username.Some? || src.password.Some? || HasHost(src) || src.port.Some? }

  datatype Canonical = Canonical(parts: Parts, ok: bool)

  /** The host that is written, and whether it will do. An empty one is no host, and no standard URL is without. */
  function CanonicalHostOf(src: Source): (Option<bytes>, bool)
    requires !NeedsIdn(src.host.GetOr([]))
  {
    if HasHost(src) then (Some(CanonicalHost(src.host.value).text), CanonicalHost(src.host.value).family != BROKEN)
    else (None, false)
  }

  /** The authority that is written, as a URL of which all the rest is missing. */
  function CanonicalAuthority(src: Source): Canonical
    requires !NeedsIdn(src.host.GetOr([]))
  {
    var scheme := Scheme(src.scheme.GetOr([])).text;
    if HasAuthority(src) then
      var info, host := CanonicalUserInfo(src.username, src.password), CanonicalHostOf(src);
      var port := CanonicalPort(src.port, DefaultPortForScheme(scheme));
      Canonical(Parts(scheme, src.scheme.Some?, info.0, info.1, host.0, port.text, None, None, None), host.1 && port.ok)
    else
      Canonical(Parts(scheme, false, None, None, None, None, None, None, None), false)
  }

  /** A path is made up where there is an authority or something behind the path. */
  function WrittenPath(src: Source): State {
    if src.path.Some? then CanonicalPath(src.path.value) else Start([SLASH])
  }

  function CanonicalURL(src: Source): Canonical
    requires !NeedsIdn(src.host.GetOr([]))
  {
    var a := CanonicalAuthority(src);
    var hasPath := src.path.Some? || HasAuthority(src) || src.query.Some? || src.ref.Some?;
    Canonical(
      a.parts.(
        path := if hasPath then Some(WrittenPath(src).out) else None,
        query := CanonicalQuery(src.query),
        ref := CanonicalRef(src.ref)),
      Scheme(src.scheme.GetOr([])).ok && a.ok && WrittenPath(src).ok)
  }

  // ---- Each part keeps to its alphabet -------------------------------------

  lemma WrittenHostChar(v: byte)
    requires Written(v).ok && !Written(v).nonAscii
    ensures forall k :: 0 <= k < |Written(v).out| ==> IsHostChar(Written(v).out[k])
  {
  }

  lemma {:induction false} SimpleHostChars(s: bytes, i: nat)
    requires i <= |s| && SimpleHost(s, i).ok && !SimpleHost(s, i).nonAscii
    ensures forall k :: 0 <= k < |SimpleHost(s, i).out| ==> IsHostChar(SimpleHost(s, i).out[k])
    ensures i < |s| ==> |SimpleHost(s, i).out| > 0
    decreases |s| - i
  {
    if i < |s| {
      SimpleHostChars(s, HostStep(s, i).0);
      WrittenHostChar(if s[i] == PERCENT then EscapeValue(s, i) else s[i]);
    }
  }

  lemma KeptAreHostChars(s: bytes)
    requires AllKept(s)
    ensures forall k :: 0 <= k < |s| ==> IsHostChar(s[k])
  {
    forall k | 0 <= k < |s| ensures IsHostChar(s[k]) { assert IsKept(s[k]); }
  }

  /** What a valid host is printed as: not empty, free of delimiters, and with a colon only between brackets. */
  lemma HostKeepsShape(s: bytes)
    requires |s| > 0 && !NeedsIdn(s) && CanonicalHost(s).family != BROKEN
    ensures HostShape(CanonicalHost(s).text)
  {
    var simple, r := SimpleHost(s, 0), CanonicalHost(s);
    if r.family == NEUTRAL {
      if !HasEscaped(s) { AsciiStaysAscii(s, 0); }
      SimpleHostChars(s, 0);
    } else {
      AddressIsFixed(simple.out);
      KeptAreHostChars(r.text);
      if r.family == IPV4 {
        forall k | 0 <= k < |r.text| ensures r.text[k] != COLON && r.text[k] != LBRACKET && r.text[k] != RBRACKET {
          assert IsIPv4Char(r.text[k]);
        }
      }
    }
  }

  lemma CleanIsPathShape(t: bytes)
    requires |t| > 0 && t[0] == SLASH && CleanChars(t)
    ensures PathShape(t)
  {
    forall k | 0 <= k < |t| ensures IsInner(t[k]) && t[k] != QUESTION && t[k] != HASH { assert IsOutChar(t[k]); }
  }

  lemma PathKeepsShape(src: Source)
    ensures PathShape(WrittenPath(src).out)
  {
    if src.path.Some? {
      PathResult(src.path.value);
      CleanIsPathShape(CanonicalPath(src.path.value).out);
    }
  }

  /** What is written for a valid URL can be split again. */
  lemma ValidIsSplittable(src: Source)
    requires !NeedsIdn(src.host.GetOr([])) && CanonicalURL(src).ok
    ensures Splittable(CanonicalURL(src).parts)
  {
    var scheme := Scheme(src.scheme.GetOr([])).text;
    SchemeIdempotent(src.scheme.GetOr([]));
    assert SchemeShape(scheme) by {
      forall k | 0 <= k < |scheme| ensures IsInner(scheme[k]) && scheme[k] != COLON {
        assert SchemeCharAt(scheme, k) == Some(scheme[k]);
      }
    }
    UserInfoIdempotent(src.username, src.password);
    HostKeepsShape(src.host.value);
    PortIdempotent(src.port, DefaultPortForScheme(scheme));
    PathKeepsShape(src);
    TextIsOfType(src.query.GetOr([]), 0, Query);
  }

  // ---- The printed URL is split into its parts -------------------------------

  lemma BlankIffSpace(ref: Option<bytes>)
    ensures EndsInBlank(CanonicalRef(ref)) <==> EndsInSpace(ref.GetOr([]), 0)
  {
    RefEnd(ref.GetOr([]), 0);
  }

  /** The ranges filled in while a valid URL is printed are those the parser finds in it if and only if the printed
      reference does not end in a space, which the parser would trim. */
  lemma PrintedUrlParsesBackIff(src: Source)
    requires !NeedsIdn(src.host.GetOr([])) && CanonicalURL(src).ok
    ensures var c := CanonicalURL(src).parts;
      StandardURL(Text(c)) == Ranges(c, 0) <==> !EndsInSpace(src.ref.GetOr([]), 0)
  {
    ValidIsSplittable(src);
    BlankIffSpace(src.ref);
    ParsesBackIff(CanonicalURL(src).parts);
  }

  // ---- A second canonicalization -----------------------------------------------

  /** The components the parser finds in a printed URL. */
  function Reparsed(c: Parts): Source
    requires Splittable(c)
  {
    Source(Some(c.scheme), c.username, c.password, c.host, c.port, c.path, c.query, TrimmedRef(c.ref))
  }

  lemma ReparsedIsParsed(c: Parts)
    requires Splittable(c)
    ensures var p := StandardURL(Text(c)); p.Within(Text(c)) && SourceAt(Text(c), p) == Reparsed(c)
  {
    ParsesBack(c);
    var kept := c.(ref := TrimmedRef(c.ref));
    TrimmingTrimsRef(c);
    assert At(Text(c), 0, Text(kept)) by {
      assert forall k :: 0 <= k < |Text(kept)| ==> Text(c)[k] == Text(c)[..TrimEnd(Text(c))][k];
    }
    TextsAtRanges(kept, Text(c));
  }

  lemma TrimmedRefIsFixed(ref: Option<bytes>)
    ensures var r := TrimmedRef(CanonicalRef(ref)); CanonicalRef(r) == r
  {
    if ref.Some? {
      RefIdempotent(ref.value);
      var r := TrimmedRef(CanonicalRef(ref)).value;
      NoControlIsFixed(r, 0);
      assert r[0..] == r;
    }
  }

  lemma AuthorityIsFixed(src: Source)
    requires !NeedsIdn(src.host.GetOr([])) && CanonicalURL(src).ok
    ensures var c := CanonicalURL(src).parts;
      && Splittable(c) && !NeedsIdn(Reparsed(c).host.GetOr([]))
      && CanonicalAuthority(Reparsed(c)) == Canonical(c.(slashes := true, path := None, query := None, ref := None), true)
  {
    var c := CanonicalURL(src).parts;
    ValidIsSplittable(src);
    SchemeIdempotent(src.scheme.GetOr([]));
    UserInfoIdempotent(src.username, src.password);
    HostIdempotent(src.host.value);
    PortIdempotent(src.port, DefaultPortForScheme(c.scheme));
  }

  /** A valid URL stays valid, and this is all that a second run can change: the slashes that a URL without a scheme
      was printed without, escapes left torn in the path, and blanks at the end of the reference. */
  lemma SecondRun(src: Source)
    requires !NeedsIdn(src.host.GetOr([])) && CanonicalURL(src).ok
    ensures var c := CanonicalURL(src).parts;
      && Splittable(c) && !NeedsIdn(Reparsed(c).host.GetOr([]))
      && CanonicalURL(Reparsed(c)) == Canonical(
           c.(slashes := true, path := Some(CanonicalPath(c.path.value).out), ref := TrimmedRef(c.ref)), true)
  {
    var c := CanonicalURL(src).parts;
    AuthorityIsFixed(src);
    SchemeIdempotent(src.scheme.GetOr([]));
    TextOfTypeIdempotent(src.query.GetOr([]), Query);
    TrimmedRefIsFixed(src.ref);
    WrittenPathStaysOk(src);
  }

  lemma WrittenPathStaysOk(src: Source)
    requires WrittenPath(src).ok
    ensures CanonicalPath(WrittenPath(src).out).ok
    ensures CanonicalPath(WrittenPath(src).out).out == WrittenPath(src).out <==> !LeavesTornEscape(src.path.GetOr([]))
  {
    assert WrittenPath(src).out == CanonicalPath(src.path.GetOr([])).out;
    assert WrittenPath(src).ok == CanonicalPath(src.path.GetOr([])).ok;
    VerdictStableIff(src.path.GetOr([]));
    IdempotentIff(src.path.GetOr([]));
  }

  /** The condition on the input. The trace of the path tells whether an escape is left torn; a path without ".." behind
      a malformed percent sign leaves none. */
  predicate IsStable(src: Source) {
    src.scheme.Some? && !LeavesTornEscape(src.path.GetOr([])) && !EndsInSpace(src.ref.GetOr([]), 0)
  }

  /** Parsing a printed URL and canonicalizing it again gives a valid URL for every valid one, and the same text with
      the same ranges if and only if the condition holds. */
  lemma CanonicalUrlIdempotentIff(src: Source)
    requires !NeedsIdn(src.host.GetOr([])) && CanonicalURL(src).ok
    ensures var c := CanonicalURL(src).parts; var p := StandardURL(Text(c));
      && p.Within(Text(c)) && var again := SourceAt(Text(c), p);
      && !NeedsIdn(again.host.GetOr([])) && var d := CanonicalURL(again);
      && d.ok && (Text(d.parts) == Text(c) && Ranges(d.parts, 0) == Ranges(c, 0) <==> IsStable(src))
  {
    var c := CanonicalURL(src).parts;
    SecondRun(src);
    ReparsedIsParsed(c);
    WrittenPathStaysOk(src);
    TrimmedRefIsShorter(c.ref);
    BlankIffSpace(src.ref);
    var d := CanonicalURL(Reparsed(c)).parts;
    assert d == c <==> IsStable(src);
    if Text(d) == Text(c) && Ranges(d, 0) == Ranges(c, 0) { TextAndRangesDecide(c, d); }
  }

  /** The same with a condition that can be seen at once: no ".." behind a malformed percent sign. */
  lemma CanonicalUrlIdempotent(src: Source)
    requires !NeedsIdn(src.host.GetOr([])) && CanonicalURL(src).ok
    requires src.scheme.Some? && NoUpAfterMalformed(src.path.GetOr([])) && !EndsInSpace(src.ref.GetOr([]), 0)
    ensures var c := CanonicalURL(src).parts; var p := StandardURL(Text(c));
      && p.Within(Text(c)) && p == Ranges(c, 0) && var again := SourceAt(Text(c), p);
      && !NeedsIdn(again.host.GetOr([])) && CanonicalURL(again) == CanonicalURL(src)
  {
    var c := CanonicalURL(src).parts;
    IdempotentWithoutUpAfterMalformed(src.path.GetOr([]));
    PrintedUrlParsesBackIff(src);
    CanonicalUrlIdempotentIff(src);
    SecondRun(src);
    ReparsedIsParsed(c);
    TextAndRangesDecide(c, CanonicalURL(Reparsed(c)).parts);
  }
}
