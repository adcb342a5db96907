/** The loops of third_party/mozilla/url_parse.cc and url_parse_internal.h against ParseSpec. */
module Parse {
  import opened Bytes
  import opened Components
  import opened ParseSpec

  method TrimURL(spec: bytes) returns (begin: nat, end: nat)
    ensures begin == TrimBegin(spec) && end == TrimEnd(spec)
  {
    begin, end := 0, |spec|;
    while begin < end && spec[begin] <= SPACE
      invariant begin <= end == |spec| && FirstOf(spec, begin, |spec|, Inner) == TrimBegin(spec)
    {
      begin := begin + 1;
    }
    FirstIs(spec, 0, |spec|, Inner, begin);
    while end > begin && spec[end - 1] <= SPACE
      invariant begin <= end <= |spec| && (begin < |spec| ==> begin < end)
      invariant LastOf(spec, 0, end, Inner) == LastOf(spec, 0, |spec|, Inner)
    {
      end := end - 1;
    }
    LastIs(spec, 0, |spec|, Inner, if begin == |spec| then -1 else end - 1);
  }

  method CountConsecutiveSlashes(str: bytes, beginOffset: nat) returns (count: nat)
    requires beginOffset <= |str|
    ensures beginOffset + count == AfterSlashes(str, beginOffset)
  {
    count := 0;
    while beginOffset + count < |str| && IsUrlSlash(str[beginOffset + count])
      invariant beginOffset + count <= |str|
      invariant AfterSlashes(str, beginOffset + count) == AfterSlashes(str, beginOffset)
    {
      count := count + 1;
    }
  }

  method FindNextAuthorityTerminator(spec: bytes, startOffset: nat) returns (end: nat)
    requires startOffset <= |spec|
    ensures end == AuthorityEnd(spec, startOffset)
  {
    for i := startOffset to |spec|
      invariant AuthorityEnd(spec, i) == AuthorityEnd(spec, startOffset)
    {
      if IsAuthorityTerminator(spec[i]) {
        return i;
      }
    }
    return |spec|;
  }

  method ExtractScheme(url: bytes) returns (scheme: Option<Component>)
    ensures scheme == SchemeOf(url)
  {
    var begin := 0;
    while begin < |url| && url[begin] <= SPACE
      invariant begin <= |url| && FirstOf(url, begin, |url|, Inner) == TrimBegin(url)
    {
      begin := begin + 1;
    }
    if begin == |url| {
      return None;
    }
    for i := begin to |url|
      invariant FirstOf(url, i, |url|, Mark(COLON)) == FirstOf(url, begin, |url|, Mark(COLON))
    {
      if url[i] == COLON {
        return Some(MakeRange(begin, i));
      }
    }
    return None;
  }

  method ParseUserInfo(spec: bytes, user: Component) returns (username: Component, password: Component)
    requires user.Within(spec) && user.IsValid()
    ensures username == UserInfoOf(spec, user.begin, user.End()).0 && password == UserInfoOf(spec, user.begin, user.End()).1
  {
    var colonOffset := 0;
    while colonOffset < user.len && spec[user.begin + colonOffset] != COLON
      invariant 0 <= colonOffset <= user.len
      invariant var end := user.End();
        FirstOf(spec, user.begin + colonOffset, end, Mark(COLON)) == FirstOf(spec, user.begin, end, Mark(COLON))
    {
      colonOffset := colonOffset + 1;
    }
    if colonOffset < user.len {
      username := Component(user.begin, colonOffset);
      password := MakeRange(user.begin + colonOffset + 1, user.begin + user.len);
    } else {
      username, password := user, NO_COMPONENT;
    }
  }

  method ParseServerInfo(spec: bytes, serverinfo: Component) returns (hostname: Component, portNum: Component)
    requires serverinfo.Within(spec) && serverinfo.IsValid()
    ensures var r := ServerInfoOf(spec, serverinfo.begin, serverinfo.End()); hostname == r.0 && portNum == r.1
  {
    if serverinfo.len == 0 {
      return NO_COMPONENT, NO_COMPONENT;
    }
    var start := if spec[serverinfo.begin] == LBRACKET then serverinfo.End() else -1;
    var ipv6Terminator, colon := start, -1;
    ghost var bracket := -1;
    for i := serverinfo.begin to serverinfo.End()
      invariant IsLast(spec, serverinfo.begin, i, Mark(COLON), colon)
      invariant IsLast(spec, serverinfo.begin, i, Mark(RBRACKET), bracket)
      invariant ipv6Terminator == if bracket >= 0 then bracket else start
    {
      if spec[i] == RBRACKET {
        ipv6Terminator := i;
        bracket := i;
      } else if spec[i] == COLON {
        colon := i;
      }
    }
    LastIs(spec, serverinfo.begin, serverinfo.End(), Mark(COLON), colon);
    LastIs(spec, serverinfo.begin, serverinfo.End(), Mark(RBRACKET), bracket);
    if colon > ipv6Terminator {
      hostname := MakeRange(serverinfo.begin, colon);
      if hostname.len == 0 {
        hostname := NO_COMPONENT;
      }
      portNum := MakeRange(colon + 1, serverinfo.End());
    } else {
      hostname, portNum := serverinfo, NO_COMPONENT;
    }
  }

  /** Searches backwards for the separator between the user info and the server info. */
  method FindUserInfoEnd(spec: bytes, auth: Component) returns (i: nat)
    requires auth.Within(spec) && auth.len > 0
    ensures auth.begin <= i < auth.End()
    ensures LastOf(spec, auth.begin, auth.End(), Mark(AT)) == if spec[i] == AT then i else -1
  {
    i := auth.begin + auth.len - 1;
    while i > auth.begin && spec[i] != AT
      invariant auth.begin <= i < auth.End()
      invariant LastOf(spec, auth.begin, i + 1, Mark(AT)) == LastOf(spec, auth.begin, auth.End(), Mark(AT))
    {
      i := i - 1;
    }
  }

  method ParseAuthority(spec: bytes, auth: Component) returns (a: Authority)
    requires auth.Within(spec) && auth.IsValid()
    ensures a == AuthorityOf(spec, auth.begin, auth.End())
  {
    if auth.len == 0 {
      return Authority(NO_COMPONENT, NO_COMPONENT, NO_COMPONENT, NO_COMPONENT);
    }
    var i := FindUserInfoEnd(spec, auth);
    var username, password, host, port;
    if spec[i] == AT {
      username, password := ParseUserInfo(spec, MakeRange(auth.begin, i));
      host, port := ParseServerInfo(spec, MakeRange(i + 1, auth.begin + auth.len));
    } else {
      username, password := NO_COMPONENT, NO_COMPONENT;
      host, port := ParseServerInfo(spec, auth);
    }
    return Authority(username, password, host, port);
  }

  /** The first position below end of the given mark, or -1. */
  ghost predicate IsSeparator(s: bytes, begin: nat, end: nat, mark: byte, k: int)
    requires begin <= end <= |s|
  {
    if k < 0 then k == -1 && IsFirst(s, begin, end, Mark(mark), end) else k < end && IsFirst(s, begin, end, Mark(mark), k)
  }

  /** The question mark counts only before the first number sign. */
  method ParsePath(spec: bytes, path: Component) returns (p: PathParts)
    requires path.Within(spec)
    ensures p == if path.len == -1 then NO_PATH else PathOf(spec, path.begin, path.End())
  {
    if path.len == -1 {
      return NO_PATH;
    }
    var pathEnd := path.begin + path.len;
    var querySeparator, refSeparator := -1, -1;
    for i := path.begin to pathEnd
      invariant IsSeparator(spec, path.begin, i, HASH, refSeparator)
      invariant IsSeparator(spec, path.begin, if refSeparator < 0 then i else refSeparator, QUESTION, querySeparator)
    {
      if spec[i] == QUESTION {
        if refSeparator < 0 && querySeparator < 0 {
          querySeparator := i;
        }
      } else if spec[i] == HASH {
        if refSeparator < 0 {
          refSeparator := i;
        }
      }
    }
    ghost var hash := if refSeparator < 0 then pathEnd else refSeparator;
    FirstIs(spec, path.begin, pathEnd, Mark(HASH), hash);
    FirstIs(spec, path.begin, hash, Mark(QUESTION), if querySeparator < 0 then hash else querySeparator);
    var fileEnd, queryEnd := pathEnd, pathEnd;
    p := NO_PATH;
    if refSeparator >= 0 {
      fileEnd, queryEnd := refSeparator, refSeparator;
      p := p.(ref := MakeRange(refSeparator + 1, pathEnd));
    }
    if querySeparator >= 0 {
      fileEnd := querySeparator;
      p := p.(query := MakeRange(querySeparator + 1, queryEnd));
    }
    if fileEnd != path.begin {
      p := p.(path := MakeRange(path.begin, fileEnd));
    }
  }

  /** Fills in everything but the scheme. The two main parts are found first, however many slashes there are. */
  method ParseAfterScheme(spec: bytes, afterScheme: nat) returns (parsed: Parsed)
    requires afterScheme <= |spec|
    ensures parsed == AfterScheme(spec, afterScheme)
  {
    var numSlashes := CountConsecutiveSlashes(spec, afterScheme);
    var afterSlashes := afterScheme + numSlashes;
    var endAuth := FindNextAuthorityTerminator(spec, afterSlashes);
    var authority := Component(afterSlashes, endAuth - afterSlashes);
    var fullPath := if endAuth == |spec| then NO_COMPONENT else Component(endAuth, |spec| - endAuth);
    var a := ParseAuthority(spec, authority);
    assert authority.End() == endAuth && a == AuthorityOf(spec, afterSlashes, endAuth);
    var p := ParsePath(spec, fullPath);
    assert p == if endAuth == |spec| then NO_PATH else PathOf(spec, endAuth, |spec|);
    parsed := Combined(NO_COMPONENT, a, p);
  }

  /** A colon ends the scheme. Without one, there is no scheme. */
  method ParseTrimmed(spec: bytes, begin: nat) returns (parsed: Parsed)
    requires begin == TrimBegin(spec)
    ensures parsed == Trimmed(spec)
  {
    var scheme := ExtractScheme(spec);
    var afterScheme := if scheme.Some? then scheme.value.End() + 1 else begin;
    parsed := ParseAfterScheme(spec, afterScheme);
    parsed := parsed.(scheme := scheme.GetOr(NO_COMPONENT));
  }

  method ParseStandardURL(url: bytes) returns (parsed: Parsed)
    ensures parsed == StandardURL(url)
  {
    var begin, end := TrimURL(url);
    TrimmedAgain(url);
    parsed := ParseTrimmed(url[..end], begin);
  }
}
