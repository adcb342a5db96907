/**
 How a standard URL is split into ranges (ParseStandardURL and its parts in third_party/mozilla/url_parse.cc), as
 functions over bytes.
 */
module ParseSpec {
  import opened Bytes
  import opened Components

  // ---- Searching -----------------------------------------------------------

  /** ShouldTrimFromURL holds of the others. */
  predicate IsInner(c: byte) { c > SPACE }

  predicate IsAuthorityTerminator(c: byte) { IsUrlSlash(c) || c == QUESTION || c == HASH }

  /** What is searched for. */
  datatype Wanted = Inner | Slash | NoSlash | AuthorityTerminator | Mark(mark: byte) {
    predicate Has(c: byte) {
      match this
      case Inner => IsInner(c)
      case Slash => IsUrlSlash(c)
      case NoSlash => !IsUrlSlash(c)
      case AuthorityTerminator => IsAuthorityTerminator(c)
      case Mark(m) => c == m
    }
  }

  /** The first position from i on that has what is wanted, or end. */
  function FirstOf(s: bytes, i: nat, end: nat, wanted: Wanted): (k: nat)
    requires i <= end <= |s|
    ensures i <= k <= end
    decreases end - i
  {
    if i == end || wanted.Has(s[i]) then i else FirstOf(s, i + 1, end, wanted)
  }

  /** The last position below end that has what is wanted, or -1. */
  function LastOf(s: bytes, begin: nat, end: nat, wanted: Wanted): (k: int)
    requires begin <= end <= |s|
    ensures k == -1 || begin <= k < end
    decreases end - begin
  {
    if begin == end then -1 else if wanted.Has(s[end - 1]) then end - 1 else LastOf(s, begin, end - 1, wanted)
  }

  predicate IsFirst(s: bytes, i: nat, end: nat, wanted: Wanted, k: nat)
    requires i <= end <= |s|
  {
    && i <= k <= end && (k < end ==> wanted.Has(s[k]))
    && forall j :: i <= j < k ==> !wanted.Has(s[j])
  }

  predicate IsLast(s: bytes, begin: nat, end: nat, wanted: Wanted, k: int)
    requires begin <= end <= |s|
  {
    && (k == -1 || (begin <= k < end && wanted.Has(s[k])))
    && forall j :: begin <= j < end && k < j ==> !wanted.Has(s[j])
  }

  lemma {:induction false} FirstIs(s: bytes, i: nat, end: nat, wanted: Wanted, k: nat)
    requires i <= end <= |s|
    ensures IsFirst(s, i, end, wanted, k) <==> FirstOf(s, i, end, wanted) == k
    decreases end - i
  {
    if i < end && !wanted.Has(s[i]) {
      FirstIs(s, i + 1, end, wanted, k);
    }
  }

  lemma {:induction false} LastIs(s: bytes, begin: nat, end: nat, wanted: Wanted, k: int)
    requires begin <= end <= |s|
    ensures IsLast(s, begin, end, wanted, k) <==> LastOf(s, begin, end, wanted) == k
    decreases end - begin
  {
    if begin < end && !wanted.Has(s[end - 1]) {
      LastIs(s, begin, end - 1, wanted, k);
    }
  }

  // ---- TrimURL, DoExtractScheme ----------------------------------------------

  function TrimBegin(s: bytes): (begin: nat)
    ensures begin <= |s|
  {
    FirstOf(s, 0, |s|, Inner)
  }

  /** A string of blanks only is not trimmed at its end. */
  function TrimEnd(s: bytes): (end: nat)
    ensures end <= |s|
  {
    var last := LastOf(s, 0, |s|, Inner);
    if last == -1 then |s| else last + 1
  }

  function SchemeOf(s: bytes): (scheme: Option<Component>)
    ensures scheme.Some? ==> scheme.value.Within(s) && 0 <= scheme.value.len && scheme.value.End() < |s|
  {
    var begin := TrimBegin(s);
    var colon := FirstOf(s, begin, |s|, Mark(COLON));
    if colon == |s| then None else Some(MakeRange(begin, colon))
  }

  // ---- DoParseAuthority ------------------------------------------------------

  /** ParseUserInfo: user name and password, split at the first colon. */
  function UserInfoOf(s: bytes, begin: nat, end: nat): (Component, Component)
    requires begin <= end <= |s|
  {
    var colon := FirstOf(s, begin, end, Mark(COLON));
    if colon < end then (MakeRange(begin, colon), MakeRange(colon + 1, end)) else (MakeRange(begin, end), NO_COMPONENT)
  }

  /** Where the part of a host ends that no port is looked for in: at the last right bracket, or at the very end if
      there is only a left one at the beginning. */
  function IPv6Terminator(s: bytes, begin: nat, end: nat): int
    requires begin < end <= |s|
  {
    var bracket := LastOf(s, begin, end, Mark(RBRACKET));
    if bracket >= 0 then bracket else if s[begin] == LBRACKET then end else -1
  }

  /** ParseServerInfo: host and port, split at the last colon behind the brackets. */
  function ServerInfoOf(s: bytes, begin: nat, end: nat): (Component, Component)
    requires begin <= end <= |s|
  {
    if begin == end then (NO_COMPONENT, NO_COMPONENT)
    else
      var colon := LastOf(s, begin, end, Mark(COLON));
      if colon > IPv6Terminator(s, begin, end) then
        (if colon == begin then NO_COMPONENT else MakeRange(begin, colon), MakeRange(colon + 1, end))
      else (MakeRange(begin, end), NO_COMPONENT)
  }

  datatype Authority = Authority(username: Component, password: Component, host: Component, port: Component)

  function AuthorityOf(s: bytes, begin: nat, end: nat): Authority
    requires begin <= end <= |s|
  {
    var at := LastOf(s, begin, end, Mark(AT));
    if at >= 0 then
      var user, server := UserInfoOf(s, begin, at), ServerInfoOf(s, at + 1, end);
      Authority(user.0, user.1, server.0, server.1)
    else
      var server := ServerInfoOf(s, begin, end);
      Authority(NO_COMPONENT, NO_COMPONENT, server.0, server.1)
  }

  // ---- ParsePath -------------------------------------------------------------

  datatype PathParts = PathParts(path: Component, query: Component, ref: Component)

  const NO_PATH := PathParts(NO_COMPONENT, NO_COMPONENT, NO_COMPONENT)

  /** The reference begins at the first '#', the query at the first '?' before it. An empty path is no path. */
  function PathOf(s: bytes, begin: nat, end: nat): PathParts
    requires begin <= end <= |s|
  {
    var hash := FirstOf(s, begin, end, Mark(HASH));
    var question := FirstOf(s, begin, hash, Mark(QUESTION));
    PathParts(
      if question == begin then NO_COMPONENT else MakeRange(begin, question),
      if question < hash then MakeRange(question + 1, hash) else NO_COMPONENT,
      if hash < end then MakeRange(hash + 1, end) else NO_COMPONENT)
  }

  // ---- DoParseAfterScheme, DoParseStandardURL ----------------------------------

  /** Where the authority begins: any number of slashes is skipped. */
  function AfterSlashes(s: bytes, i: nat): (k: nat)
    requires i <= |s|
    ensures i <= k <= |s|
  {
    FirstOf(s, i, |s|, NoSlash)
  }

  function AuthorityEnd(s: bytes, i: nat): (k: nat)
    requires i <= |s|
    ensures i <= k <= |s|
  {
    FirstOf(s, i, |s|, AuthorityTerminator)
  }

  function Combined(scheme: Component, a: Authority, p: PathParts): Parsed {
    Parsed(scheme, a.username, a.password, a.host, a.port, p.path, p.query, p.ref)
  }

  /** Everything but the scheme. What is behind the authority is the path, if there is anything. */
  function AfterScheme(s: bytes, after: nat): Parsed
    requires after <= |s|
  {
    var begin := AfterSlashes(s, after);
    var end := AuthorityEnd(s, begin);
    Combined(NO_COMPONENT, AuthorityOf(s, begin, end), if end == |s| then NO_PATH else PathOf(s, end, |s|))
  }

  /** A string that has been trimmed at its end already. */
  function Trimmed(s: bytes): Parsed {
    var scheme := SchemeOf(s);
    AfterScheme(s, if scheme.Some? then scheme.value.End() + 1 else TrimBegin(s)).(scheme := scheme.GetOr(NO_COMPONENT))
  }

  function StandardURL(s: bytes): Parsed { Trimmed(s[..TrimEnd(s)]) }

  /** Where the authority is looked for. */
  function BehindScheme(s: bytes): (after: nat)
    ensures after <= |s|
  {
    if SchemeOf(s).Some? then SchemeOf(s).value.End() + 1 else TrimBegin(s)
  }

  lemma TrimmedIs(s: bytes, p: Parsed)
    requires p == AfterScheme(s, BehindScheme(s))
    ensures Trimmed(s) == p.(scheme := SchemeOf(s).GetOr(NO_COMPONENT))
  {
  }

  /** All ranges lie within the string. */
  lemma AfterSchemeWithin(s: bytes, after: nat)
    requires after <= |s|
    ensures AfterScheme(s, after).Within(s)
  {
    var begin := AfterSlashes(s, after);
    var end := AuthorityEnd(s, begin);
    AuthorityWithin(s, begin, end);
    PathWithin(s, end, |s|);
  }

  lemma ServerInfoWithin(s: bytes, begin: nat, end: nat)
    requires begin <= end <= |s|
    ensures ServerInfoOf(s, begin, end).0.Within(s) && ServerInfoOf(s, begin, end).1.Within(s)
  {
  }

  lemma AuthorityWithin(s: bytes, begin: nat, end: nat)
    requires begin <= end <= |s|
    ensures var a := AuthorityOf(s, begin, end);
      a.username.Within(s) && a.password.Within(s) && a.host.Within(s) && a.port.Within(s)
  {
    var at := LastOf(s, begin, end, Mark(AT));
    ServerInfoWithin(s, if at >= 0 then at + 1 else begin, end);
  }

  lemma PathWithin(s: bytes, begin: nat, end: nat)
    requires begin <= end <= |s|
    ensures var p := PathOf(s, begin, end); p.path.Within(s) && p.query.Within(s) && p.ref.Within(s)
    ensures PathOf(s, begin, end).path.len != 0
    ensures var p := PathOf(s, begin, end); begin < end ==> p.path.IsValid() || p.query.IsValid() || p.ref.IsValid()
  {
  }

  // ---- What trimming leaves --------------------------------------------------

  lemma TrimmedAgain(s: bytes)
    ensures var t := s[..TrimEnd(s)]; TrimBegin(t) == TrimBegin(s) && TrimEnd(t) == TrimEnd(s)
  {
    var t := s[..TrimEnd(s)];
    var first, last := TrimBegin(s), LastOf(s, 0, |s|, Inner);
    FirstIs(s, 0, |s|, Inner, first);
    LastIs(s, 0, |s|, Inner, last);
    if last >= 0 {
      assert first <= last by { assert Inner.Has(s[last]); }
      FirstIs(t, 0, |t|, Inner, first);
      LastIs(t, 0, |t|, Inner, last);
    } else {
      assert t == s;
    }
  }

  /** Trailing blanks do not change the result. */
  lemma BlanksDoNotCount(s: bytes)
    ensures StandardURL(s[..TrimEnd(s)]) == StandardURL(s)
  {
    TrimmedAgain(s);
    assert s[..TrimEnd(s)][..TrimEnd(s)] == s[..TrimEnd(s)];
  }

  /** Nor do any blanks that are put behind a string that is not blank. */
  lemma TrailingBlanks(s: bytes, blanks: bytes)
    requires (exists k :: 0 <= k < |s| && s[k] > 0x20) && forall k :: 0 <= k < |blanks| ==> blanks[k] <= 0x20
    ensures StandardURL(s + blanks) == StandardURL(s)
  {
    var t := s + blanks;
    var last := LastOf(s, 0, |s|, Inner);
    LastIs(s, 0, |s|, Inner, last);
    assert last >= 0 by { var k :| 0 <= k < |s| && s[k] > 0x20; assert Inner.Has(s[k]); }
    LastIs(t, 0, |t|, Inner, last);
    assert t[..last + 1] == s[..last + 1];
  }

  // ---- Backslashes -----------------------------------------------------------

  /** The same string, but for slashes that are written as backslashes. */
  predicate SameButSlashes(s: bytes, t: bytes) {
    |s| == |t| && forall k :: 0 <= k < |s| ==>
      s[k] == t[k] || (s[k] == 0x2F && t[k] == 0x5C) || (s[k] == 0x5C && t[k] == 0x2F)
  }

  predicate BlindToSlashes(wanted: Wanted) { !wanted.Mark? || (wanted.mark != 0x2F && wanted.mark != 0x5C) }

  lemma {:induction false} SameFirst(s: bytes, t: bytes, i: nat, end: nat, wanted: Wanted)
    requires SameButSlashes(s, t) && i <= end <= |s| && BlindToSlashes(wanted)
    ensures FirstOf(s, i, end, wanted) == FirstOf(t, i, end, wanted)
    decreases end - i
  {
    if i < end { SameFirst(s, t, i + 1, end, wanted); }
  }

  lemma {:induction false} SameLast(s: bytes, t: bytes, begin: nat, end: nat, wanted: Wanted)
    requires SameButSlashes(s, t) && begin <= end <= |s| && BlindToSlashes(wanted)
    ensures LastOf(s, begin, end, wanted) == LastOf(t, begin, end, wanted)
    decreases end - begin
  {
    if begin < end { SameLast(s, t, begin, end - 1, wanted); }
  }

  lemma SameServerInfo(s: bytes, t: bytes, begin: nat, end: nat)
    requires SameButSlashes(s, t) && begin <= end <= |s|
    ensures ServerInfoOf(s, begin, end) == ServerInfoOf(t, begin, end)
  {
    SameLast(s, t, begin, end, Mark(COLON));
    SameLast(s, t, begin, end, Mark(RBRACKET));
    if begin < end { assert s[begin] == LBRACKET <==> t[begin] == LBRACKET; }
  }

  lemma SameAuthority(s: bytes, t: bytes, begin: nat, end: nat)
    requires SameButSlashes(s, t) && begin <= end <= |s|
    ensures AuthorityOf(s, begin, end) == AuthorityOf(t, begin, end)
  {
    SameLast(s, t, begin, end, Mark(AT));
    var at := LastOf(s, begin, end, Mark(AT));
    SameServerInfo(s, t, if at >= 0 then at + 1 else begin, end);
    if at >= 0 { SameFirst(s, t, begin, at, Mark(COLON)); }
  }

  lemma SameAfterScheme(s: bytes, t: bytes, after: nat)
    requires SameButSlashes(s, t) && after <= |s|
    ensures AfterScheme(s, after) == AfterScheme(t, after)
  {
    SameFirst(s, t, after, |s|, NoSlash);
    var begin := AfterSlashes(s, after);
    SameFirst(s, t, begin, |s|, AuthorityTerminator);
    var end := AuthorityEnd(s, begin);
    SameAuthority(s, t, begin, end);
    SameFirst(s, t, end, |s|, Mark(HASH));
    SameFirst(s, t, end, FirstOf(s, end, |s|, Mark(HASH)), Mark(QUESTION));
  }

  lemma SameSchemeOf(s: bytes, t: bytes)
    requires SameButSlashes(s, t)
    ensures SchemeOf(s) == SchemeOf(t) && TrimBegin(s) == TrimBegin(t)
  {
    SameFirst(s, t, 0, |s|, Inner);
    SameFirst(s, t, TrimBegin(s), |s|, Mark(COLON));
  }

  lemma SameTrimmed(s: bytes, t: bytes)
    requires SameButSlashes(s, t)
    ensures Trimmed(s) == Trimmed(t)
  {
    SameSchemeOf(s, t);
    SameAfterScheme(s, t, BehindScheme(s));
    TrimmedIs(s, AfterScheme(s, BehindScheme(s)));
    TrimmedIs(t, AfterScheme(s, BehindScheme(s)));
  }

  /** Turning any slash into a backslash or back, anywhere in the string, changes no range. */
  lemma BackslashesAreSlashes(s: bytes, t: bytes)
    requires SameButSlashes(s, t)
    ensures StandardURL(s) == StandardURL(t)
  {
    SameLast(s, t, 0, |s|, Inner);
    SameTrimmed(s[..TrimEnd(s)], t[..TrimEnd(t)]);
  }
}
