/** url_canon_stdurl.cc: the components are written one after the other, and their ranges noted on the way. */
module StandardUrl {
  import opened Bytes
  import opened CanonOutputs
  import opened Components
  import opened EtcSpec
  import opened Etc
  import opened IPv4
  import opened HostSpec
  import opened Host
  import opened PathSpec
  import opened Path
  import opened ParseSpec
  import opened UrlText
  import opened StandardUrlSpec

  /** The parts of the program that are limited to ASCII here, and the hosts that are not left to the IDN conversion. */
  predicate IsModelled(src: Source) {
    && AllAscii(src.scheme.GetOr([])) && AllAscii(src.username.GetOr([])) && AllAscii(src.password.GetOr([]))
    && !NeedsIdn(src.host.GetOr([])) && AllAscii(src.port.GetOr([]))
    && AllAscii(src.query.GetOr([])) && AllAscii(src.ref.GetOr([]))
  }

  /** Host and port. A standard URL must have a host, but what there is is written all the same. */
  method WriteServer(src: Source, scheme: bytes, output: CanonOutput)
    returns (success: bool, host: Component, port: Component)
    requires IsModelled(src)
    modifies output
    ensures var h := CanonicalHostOf(src); var p := CanonicalPort(src.port, DefaultPortForScheme(scheme));
      && output.text == old(output.text) + (h.0.GetOr([]) + WithMark(COLON, p.text)) && success == (h.1 && p.ok)
      && host == RangeOf(h.0, |old(output.text)|)
      && port == RangeOf(p.text, |old(output.text)| + |h.0.GetOr([])| + 1)
  {
    var info := new CanonHostInfo();
    DoHost(src.host, output, info);
    success := info.family != BROKEN;
    if src.host.None? || |src.host.value| == 0 {
      success := false;
    }
    ghost var h := CanonicalHostOf(src).0.GetOr([]);
    assert output.text == old(output.text) + h;
    var ok;
    ok, port := DoPort(src.port, DefaultPortForScheme(scheme), output);
    Regroup(old(output.text), h, output.text[|old(output.text)| + |h|..]);
    return success && ok, info.outHost, port;
  }

  /** The authority separators are only written when there is a scheme. */
  method WriteSlashes(needed: bool, output: CanonOutput)
    modifies output
    ensures output.text == old(output.text) + if needed then [SLASH, SLASH] else []
  {
    if needed {
      output.PushBack(SLASH);
      output.PushBack(SLASH);
    }
  }

  /** The authority of a URL that has one. The canonical scheme has been written already. */
  method WriteAuthority(src: Source, scheme: bytes, output: CanonOutput) returns (success: bool, a: Authority)
    requires IsModelled(src) && HasAuthority(src) && scheme == Scheme(src.scheme.GetOr([])).text
    modifies output
    ensures var c := CanonicalAuthority(src);
      && output.text == old(output.text) + (SlashesText(c.parts) + AuthorityText(c.parts)) && success == c.ok
      && a == AuthorityRanges(c.parts, |old(output.text)| + |SlashesText(c.parts)|)
  {
    ghost var before, c := output.text, CanonicalAuthority(src).parts;
    WriteSlashes(src.scheme.Some?, output);
    var username, password := DoUserInfo(src.username, src.password, output);
    var host, port;
    success, host, port := WriteServer(src, scheme, output);
    Regroup4(before, SlashesText(c), UserInfoText(c.username, c.password), ServerText(c));
    Regroup(SlashesText(c), UserInfoText(c.username, c.password), ServerText(c));
    a := Authority(username, password, host, port);
  }

  /** The path of the URL, or one made up, or none. */
  method WritePath(path: Option<bytes>, needed: bool, output: CanonOutput) returns (success: bool, outPath: Component)
    modifies output
    ensures var st := if path.Some? then CanonicalPath(path.value) else Start([SLASH]);
      var written := if path.Some? || needed then Some(st.out) else None;
      && output.text == old(output.text) + written.GetOr([]) && success == st.ok
      && outPath == RangeOf(written, |old(output.text)|)
  {
    match path {
      case Some(p) =>
        assert p[0..0 + |p|] == p;
        success, outPath := DoPath(p, Component(0, |p|), output);
      case None =>
        success, outPath := true, NO_COMPONENT;
        if needed {
          outPath := Component(output.Length(), 1);
          output.PushBack(SLASH);
        }
    }
  }

  /** Everything behind the authority. Nothing can fail but the path. */
  method WriteTail(src: Source, haveAuthority: bool, output: CanonOutput) returns (success: bool, p: PathParts)
    requires IsModelled(src) && haveAuthority == HasAuthority(src)
    modifies output
    ensures var c := CanonicalURL(src).parts;
      && output.text == old(output.text) + Tail(c) && success == WrittenPath(src).ok
      && p == TailRanges(c, |old(output.text)|)
  {
    ghost var c := CanonicalURL(src).parts;
    var ok, path := WritePath(src.path, haveAuthority || src.query.Some? || src.ref.Some?, output);
    var query := DoCanonicalizeQuery(src.query, output);
    var ref := DoCanonicalizeRef(src.ref, output);
    Regroup4(old(output.text), c.path.GetOr([]), WithMark(QUESTION, c.query), WithMark(HASH, c.ref));
    return ok, PathParts(path, query, ref);
  }

  method WriteAuthorityIfAny(src: Source, haveAuthority: bool, scheme: bytes, output: CanonOutput)
    returns (success: bool, a: Authority)
    requires IsModelled(src) && haveAuthority == HasAuthority(src) && scheme == Scheme(src.scheme.GetOr([])).text
    modifies output
    ensures var c := CanonicalAuthority(src);
      && output.text == old(output.text) + (SlashesText(c.parts) + AuthorityText(c.parts)) && success == c.ok
      && a == AuthorityRanges(c.parts, |old(output.text)| + |SlashesText(c.parts)|)
  {
    if !haveAuthority {
      return false, Authority(NO_COMPONENT, NO_COMPONENT, NO_COMPONENT, NO_COMPONENT);
    }
    success, a := WriteAuthority(src, scheme, output);
  }

  /** Everything up to the path. */
  method WriteFront(src: Source, haveAuthority: bool, output: CanonOutput)
    returns (success: bool, scheme: Component, a: Authority)
    requires IsModelled(src) && haveAuthority == HasAuthority(src)
    modifies output
    ensures var c := CanonicalAuthority(src);
      && output.text == old(output.text) + (Head(c.parts) + AuthorityText(c.parts))
      && success == (c.ok && Scheme(src.scheme.GetOr([])).ok)
      && scheme == Component(|old(output.text)|, |c.parts.scheme|)
      && a == AuthorityRanges(c.parts, |old(output.text)| + |Head(c.parts)|)
  {
    ghost var before, c := output.text, CanonicalAuthority(src).parts;
    var schemeOk, ok;
    schemeOk, scheme := DoScheme(src.scheme, output);
    var written := output.text[scheme.begin..scheme.End()];
    ok, a := WriteAuthorityIfAny(src, haveAuthority, written, output);
    FrontText(before, c);
    return ok && schemeOk, scheme, a;
  }

  lemma FrontText(before: bytes, c: Parts)
    ensures before + c.scheme + [COLON] + (SlashesText(c) + AuthorityText(c)) == before + (Head(c) + AuthorityText(c))
    ensures (before + c.scheme + [COLON])[|before|..|before| + |c.scheme|] == c.scheme
  {
  }

  lemma WholeText(before: bytes, front: Parts, c: Parts)
    requires c == front.(path := c.path, query := c.query, ref := c.ref)
    ensures before + (Head(front) + AuthorityText(front)) + Tail(c) == before + Text(c)
    ensures Ranges(c, |before|) == Combined(
      Component(|before|, |front.scheme|), AuthorityRanges(front, |before| + |Head(front)|),
      TailRanges(c, |before + (Head(front) + AuthorityText(front))|))
  {
    Regroup(before, Head(front) + AuthorityText(front), Tail(c));
  }

  method DoCanonicalizeStandardURL(src: Source, output: CanonOutput) returns (success: bool, newParsed: Parsed)
    requires IsModelled(src)
    modifies output
    ensures var c := CanonicalURL(src);
      && output.text == old(output.text) + Text(c.parts) && success == c.ok
      && newParsed == Ranges(c.parts, |old(output.text)|)
  {
    ghost var before := output.text;
    var haveAuthority := src.username.Some? || src.password.Some? || |src.host.GetOr([])| > 0 || src.port.Some?;
    var ok, scheme, a := WriteFront(src, haveAuthority, output);
    var pathOk, p := WriteTail(src, haveAuthority, output);
    WholeText(before, CanonicalAuthority(src).parts, CanonicalURL(src).parts);
    return ok && pathOk, Combined(scheme, a, p);
  }
}
