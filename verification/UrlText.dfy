/**
 A URL as the text of its parts, one after the other with their marks, and the ranges these parts have in it. The
 parser finds exactly these ranges again.
 */
module UrlText {
  import opened Bytes
  import opened Components
  import opened Numbers
  import opened EtcSpec
  import opened ParseSpec

  datatype Parts = Parts(
    scheme: bytes,
    slashes: bool,
    username: Option<bytes>,
    password: Option<bytes>,
    host: Option<bytes>,
    port: Option<bytes>,
    path: Option<bytes>,
    query: Option<bytes>,
    ref: Option<bytes>)

  function SlashesText(c: Parts): bytes { if c.slashes then [SLASH, SLASH] else [] }

  function Head(c: Parts): bytes { c.scheme + [COLON] + SlashesText(c) }

  function ServerText(c: Parts): bytes { c.host.GetOr([]) + WithMark(COLON, c.port) }

  function AuthorityText(c: Parts): bytes { UserInfoText(c.username, c.password) + ServerText(c) }

  function Tail(c: Parts): bytes { c.path.GetOr([]) + WithMark(QUESTION, c.query) + WithMark(HASH, c.ref) }

  function Text(c: Parts): bytes { Head(c) + AuthorityText(c) + Tail(c) }

  /** The ranges of the user info, the server and the rest, each from where it begins. */
  function AuthorityRanges(c: Parts, begin: nat): Authority {
    var server := begin + |UserInfoText(c.username, c.password)|;
    Authority(
      RangeOf(c.username, begin),
      RangeOf(c.password, begin + |c.username.GetOr([])| + 1),
      RangeOf(c.host, server),
      RangeOf(c.port, server + |c.host.GetOr([])| + 1))
  }

  function TailRanges(c: Parts, begin: nat): PathParts {
    var query := begin + |c.path.GetOr([])|;
    PathParts(
      RangeOf(c.path, begin),
      RangeOf(c.query, query + 1),
      RangeOf(c.ref, query + |WithMark(QUESTION, c.query)| + 1))
  }

  /** The ranges in a text that begins at the given position. */
  function Ranges(c: Parts, begin: nat): Parsed {
    var authority := begin + |Head(c)|;
    Combined(
      Component(begin, |c.scheme|), AuthorityRanges(c, authority), TailRanges(c, authority + |AuthorityText(c)|))
  }

  // ---- What the parser relies on -----------------------------------------------

  predicate IsHostChar(c: byte) { IsInner(c) && !IsAuthorityTerminator(c) && c != AT }

  /** No character ends the authority, or a part of it that is followed by an at sign. */
  predicate StaysInside(t: bytes) { forall k :: 0 <= k < |t| ==> !IsAuthorityTerminator(t[k]) && t[k] != AT }

  predicate Lacks(t: bytes, mark: byte) { forall k :: 0 <= k < |t| ==> t[k] != mark }

  /** A colon in a host is enclosed in brackets. */
  predicate HostForm(host: bytes) {
    && |host| > 0 && StaysInside(host)
    && if host[0] == LBRACKET then host[|host| - 1] == RBRACKET
       else Lacks(host, COLON) && Lacks(host, LBRACKET) && Lacks(host, RBRACKET)
  }

  predicate HostShape(host: bytes) { HostForm(host) && forall k :: 0 <= k < |host| ==> IsInner(host[k]) }

  predicate SchemeShape(scheme: bytes) { forall k :: 0 <= k < |scheme| ==> IsInner(scheme[k]) && scheme[k] != COLON }

  predicate PathShape(path: bytes) {
    && |path| > 0 && path[0] == SLASH
    && forall k :: 0 <= k < |path| ==> IsInner(path[k]) && path[k] != QUESTION && path[k] != HASH
  }

  /** No part of the authority holds a character that would end it. An empty host is no host. */
  predicate AuthorityForm(c: Parts) {
    && (c.password.Some? ==> c.username.Some?)
    && StaysInside(c.username.GetOr([])) && Lacks(c.username.GetOr([]), COLON) && StaysInside(c.password.GetOr([]))
    && (c.host.Some? ==> HostForm(c.host.value))
    && AllDigits(c.port.GetOr([]), Dec)
  }

  /** The same for the parts behind the authority. An empty path is no path. */
  predicate TailForm(c: Parts) {
    && (c.path.Some? ==> |c.path.value| > 0 && Lacks(c.path.value, QUESTION) && Lacks(c.path.value, HASH))
    && Lacks(c.query.GetOr([]), HASH)
  }

  /** What holds of a URL that has been printed: no part holds a character that would end it, or a blank. */
  predicate Splittable(c: Parts) {
    && SchemeShape(c.scheme)
    && (c.password.Some? ==> c.username.Some?)
    && AllOfType(c.username.GetOr([]), UserInfo) && AllOfType(c.password.GetOr([]), UserInfo)
    && c.host.Some? && HostShape(c.host.value)
    && AllDigits(c.port.GetOr([]), Dec)
    && c.path.Some? && PathShape(c.path.value)
    && AllOfType(c.query.GetOr([]), Query)
  }

  lemma SplittableForms(c: Parts)
    requires Splittable(c)
    ensures AuthorityForm(c) && TailForm(c)
  {
    forall t: bytes | AllOfType(t, UserInfo) ensures StaysInside(t) && Lacks(t, COLON) {
      forall k | 0 <= k < |t| ensures !IsAuthorityTerminator(t[k]) && t[k] != AT && t[k] != COLON { assert UserInfo.Has(t[k]); }
    }
    var q := c.query.GetOr([]);
    forall k | 0 <= k < |q| ensures q[k] != HASH { assert Query.Has(q[k]); }
  }

  /** The reference ends in a character that is trimmed from a URL. */
  predicate EndsInBlank(ref: Option<bytes>) { ref.Some? && |ref.value| > 0 && !IsInner(ref.value[|ref.value| - 1]) }

  // ---- Texts within a text -----------------------------------------------------

  predicate At(s: bytes, i: nat, t: bytes) { i + |t| <= |s| && forall k :: i <= k < i + |t| ==> s[k] == t[k - i] }

  lemma AtParts(s: bytes, i: nat, a: bytes, b: bytes)
    requires At(s, i, a + b)
    ensures At(s, i, a) && At(s, i + |a|, b)
  {
    assert forall k :: i <= k < i + |a| ==> s[k] == (a + b)[k - i];
    assert forall k :: i + |a| <= k < i + |a| + |b| ==> s[k] == (a + b)[k - i];
  }

  lemma AtIsText(s: bytes, i: nat, t: bytes)
    requires At(s, i, t)
    ensures Component(i, |t|).Within(s) && Component(i, |t|).Text(s) == Some(t)
  {
    assert s[i..i + |t|] == t;
  }

  // ---- Splitting the authority ---------------------------------------------------

  lemma UserInfoSplits(s: bytes, i: nat, user: bytes, pass: Option<bytes>)
    requires Lacks(user, COLON) && At(s, i, user + WithMark(COLON, pass))
    ensures UserInfoOf(s, i, i + |user + WithMark(COLON, pass)|)
      == (Component(i, |user|), RangeOf(pass, i + |user| + 1))
  {
    AtParts(s, i, user, WithMark(COLON, pass));
    assert forall k :: i <= k < i + |user| ==> !Mark(COLON).Has(s[k]);
    var end := i + |user + WithMark(COLON, pass)|;
    FirstIs(s, i, end, Mark(COLON), i + |user|);
  }

  lemma DigitsHaveNoMark(s: bytes, i: nat, port: bytes)
    requires AllDigits(port, Dec) && At(s, i, port)
    ensures forall k :: i <= k < i + |port| ==> !Mark(COLON).Has(s[k]) && !Mark(RBRACKET).Has(s[k]) && !Mark(AT).Has(s[k])
  {
    assert forall k :: i <= k < i + |port| ==> Dec.IsDigit(s[k]);
  }

  /** The brackets of an IPv6 literal, or their absence, are seen by the parser. */
  lemma BracketsSeen(s: bytes, i: nat, host: bytes, end: nat)
    requires HostForm(host) && At(s, i, host) && i + |host| <= end <= |s|
    requires forall k :: i + |host| <= k < end ==> !Mark(RBRACKET).Has(s[k])
    ensures IPv6Terminator(s, i, end) == if host[0] == LBRACKET then i + |host| - 1 else -1
  {
    assert s[i] == host[0] && s[i + |host| - 1] == host[|host| - 1];
    LastIs(s, i, end, Mark(RBRACKET), if host[0] == LBRACKET then i + |host| - 1 else -1);
  }

  lemma ServerSplits(s: bytes, i: nat, host: bytes, port: Option<bytes>)
    requires HostForm(host) && AllDigits(port.GetOr([]), Dec) && At(s, i, host + WithMark(COLON, port))
    ensures ServerInfoOf(s, i, i + |host + WithMark(COLON, port)|)
      == (Component(i, |host|), RangeOf(port, i + |host| + 1))
  {
    AtParts(s, i, host, WithMark(COLON, port));
    var colon := i + |host|;
    var end := colon + |WithMark(COLON, port)|;
    var last := LastOf(s, i, end, Mark(COLON));
    LastIs(s, i, end, Mark(COLON), last);
    if port.Some? {
      AtParts(s, colon, [COLON], port.value);
      DigitsHaveNoMark(s, colon + 1, port.value);
      assert last == colon by { assert Mark(COLON).Has(s[colon]); }
    } else if last >= 0 {
      assert s[last] == host[last - i];
    }
    BracketsSeen(s, i, host, end);
  }

  /** A port behind an empty host, or nothing at all. */
  lemma PortSplits(s: bytes, i: nat, port: Option<bytes>)
    requires AllDigits(port.GetOr([]), Dec) && At(s, i, WithMark(COLON, port))
    ensures ServerInfoOf(s, i, i + |WithMark(COLON, port)|) == (NO_COMPONENT, RangeOf(port, i + 1))
  {
    if port.Some? {
      var end := i + 1 + |port.value|;
      AtParts(s, i, [COLON], port.value);
      DigitsHaveNoMark(s, i + 1, port.value);
      LastIs(s, i, end, Mark(COLON), i);
      LastIs(s, i, end, Mark(RBRACKET), -1);
    }
  }

  lemma ServerFound(c: Parts, s: bytes, i: nat)
    requires AuthorityForm(c) && At(s, i, ServerText(c))
    ensures ServerInfoOf(s, i, i + |ServerText(c)|) == (RangeOf(c.host, i), RangeOf(c.port, i + |c.host.GetOr([])| + 1))
  {
    if c.host.Some? {
      ServerSplits(s, i, c.host.value, c.port);
    } else {
      assert ServerText(c) == WithMark(COLON, c.port);
      PortSplits(s, i, c.port);
    }
  }

  lemma ServerHasNoAt(c: Parts, s: bytes, i: nat)
    requires AuthorityForm(c) && At(s, i, ServerText(c))
    ensures forall k :: i <= k < i + |ServerText(c)| ==> !Mark(AT).Has(s[k])
  {
    var host := c.host.GetOr([]);
    AtParts(s, i, host, WithMark(COLON, c.port));
    assert forall k :: i <= k < i + |host| ==> s[k] != AT;
    if c.port.Some? {
      AtParts(s, i + |host|, [COLON], c.port.value);
      DigitsHaveNoMark(s, i + |host| + 1, c.port.value);
    }
  }

  /** The sign that ends the user info is the last of its kind. */
  lemma LastAt(c: Parts, s: bytes, i: nat)
    requires AuthorityForm(c) && At(s, i, AuthorityText(c))
    ensures LastOf(s, i, i + |AuthorityText(c)|, Mark(AT))
      == if c.username.Some? then i + |UserInfoText(c.username, c.password)| - 1 else -1
  {
    var info := UserInfoText(c.username, c.password);
    AtParts(s, i, info, ServerText(c));
    ServerHasNoAt(c, s, i + |info|);
    if c.username.Some? {
      AtParts(s, i, c.username.value + WithMark(COLON, c.password), [AT]);
      assert Mark(AT).Has(s[i + |info| - 1]);
      LastIs(s, i, i + |AuthorityText(c)|, Mark(AT), i + |info| - 1);
    } else {
      LastIs(s, i, i + |AuthorityText(c)|, Mark(AT), -1);
    }
  }

  lemma AuthorityWithUser(c: Parts, s: bytes, i: nat)
    requires AuthorityForm(c) && c.username.Some? && At(s, i, AuthorityText(c))
    ensures AuthorityOf(s, i, i + |AuthorityText(c)|) == AuthorityRanges(c, i)
  {
    var info := UserInfoText(c.username, c.password);
    LastAt(c, s, i);
    UserAndServer(c, s, i);
    assert (i + |info| - 1) + 1 == i + |info|;
  }

  lemma UserAndServer(c: Parts, s: bytes, i: nat)
    requires AuthorityForm(c) && c.username.Some? && At(s, i, AuthorityText(c))
    ensures var user, server := c.username.value, i + |UserInfoText(c.username, c.password)|;
      && UserInfoOf(s, i, server - 1) == (Component(i, |user|), RangeOf(c.password, i + |user| + 1))
      && ServerInfoOf(s, server, i + |AuthorityText(c)|)
          == (RangeOf(c.host, server), RangeOf(c.port, server + |c.host.GetOr([])| + 1))
  {
    AtParts(s, i, UserInfoText(c.username, c.password), ServerText(c));
    ServerFound(c, s, i + |UserInfoText(c.username, c.password)|);
    UserFound(c, s, i);
  }

  lemma UserFound(c: Parts, s: bytes, i: nat)
    requires AuthorityForm(c) && c.username.Some? && At(s, i, UserInfoText(c.username, c.password))
    ensures var user := c.username.value;
      UserInfoOf(s, i, i + |UserInfoText(c.username, c.password)| - 1)
        == (Component(i, |user|), RangeOf(c.password, i + |user| + 1))
  {
    AtParts(s, i, c.username.value + WithMark(COLON, c.password), [AT]);
    UserInfoSplits(s, i, c.username.value, c.password);
  }

  lemma AuthorityWithoutUser(c: Parts, s: bytes, i: nat)
    requires AuthorityForm(c) && c.username == None && At(s, i, AuthorityText(c))
    ensures AuthorityOf(s, i, i + |AuthorityText(c)|) == AuthorityRanges(c, i)
  {
    LastAt(c, s, i);
    AtParts(s, i, UserInfoText(c.username, c.password), ServerText(c));
    ServerFound(c, s, i);
  }

  lemma AuthoritySplits(c: Parts, s: bytes, i: nat)
    requires AuthorityForm(c) && At(s, i, AuthorityText(c))
    ensures AuthorityOf(s, i, i + |AuthorityText(c)|) == AuthorityRanges(c, i)
  {
    if c.username.Some? { AuthorityWithUser(c, s, i); } else { AuthorityWithoutUser(c, s, i); }
  }

  // ---- Splitting the rest ----------------------------------------------------------

  lemma QueryHasNoHash(s: bytes, i: nat, query: Option<bytes>)
    requires Lacks(query.GetOr([]), HASH) && At(s, i, WithMark(QUESTION, query))
    ensures forall k :: i <= k < i + |WithMark(QUESTION, query)| ==> !Mark(HASH).Has(s[k])
    ensures query.Some? ==> Mark(QUESTION).Has(s[i])
  {
    if query.Some? {
      AtParts(s, i, [QUESTION], query.value);
      assert forall k :: i < k < i + 1 + |query.value| ==> s[k] != HASH;
    }
  }

  lemma PathHasNoMark(s: bytes, i: nat, path: bytes)
    requires Lacks(path, QUESTION) && Lacks(path, HASH) && At(s, i, path)
    ensures forall k :: i <= k < i + |path| ==> !Mark(HASH).Has(s[k]) && !Mark(QUESTION).Has(s[k])
  {
  }

  /** The number sign and the question mark, given where the parts are. */
  lemma MarksFound(c: Parts, s: bytes, i: nat)
    requires TailForm(c) && At(s, i, c.path.GetOr([]))
    requires At(s, i + |c.path.GetOr([])|, WithMark(QUESTION, c.query))
    requires At(s, i + |c.path.GetOr([])| + |WithMark(QUESTION, c.query)|, WithMark(HASH, c.ref))
    ensures var question := i + |c.path.GetOr([])|; var hash := question + |WithMark(QUESTION, c.query)|;
      && FirstOf(s, i, hash + |WithMark(HASH, c.ref)|, Mark(HASH)) == hash
      && FirstOf(s, i, hash, Mark(QUESTION)) == question
  {
    var question := i + |c.path.GetOr([])|;
    var hash := question + |WithMark(QUESTION, c.query)|;
    PathHasNoMark(s, i, c.path.GetOr([]));
    QueryHasNoHash(s, question, c.query);
    if c.ref.Some? { assert Mark(HASH).Has(s[hash]); }
    FirstIs(s, i, hash + |WithMark(HASH, c.ref)|, Mark(HASH), hash);
    FirstIs(s, i, hash, Mark(QUESTION), question);
  }

  lemma TailSplits(c: Parts, s: bytes, i: nat)
    requires TailForm(c) && At(s, i, Tail(c))
    ensures PathOf(s, i, i + |Tail(c)|) == TailRanges(c, i)
  {
    TailParts(c, s, i);
    MarksFound(c, s, i);
  }

  lemma TailParts(c: Parts, s: bytes, i: nat)
    requires At(s, i, Tail(c))
    ensures At(s, i, c.path.GetOr([])) && At(s, i + |c.path.GetOr([])|, WithMark(QUESTION, c.query))
    ensures At(s, i + |c.path.GetOr([])| + |WithMark(QUESTION, c.query)|, WithMark(HASH, c.ref))
  {
    AtParts(s, i, c.path.GetOr([]) + WithMark(QUESTION, c.query), WithMark(HASH, c.ref));
    AtParts(s, i, c.path.GetOr([]), WithMark(QUESTION, c.query));
  }

  // ---- Splitting the whole ---------------------------------------------------------

  /** What is behind the authority begins with a character that ends it. */
  lemma TailEndsAuthority(c: Parts, s: bytes, i: nat)
    requires At(s, i, Tail(c)) && i + |Tail(c)| == |s|
    requires TailForm(c) && (c.path.Some? ==> c.path.value[0] == SLASH)
    ensures i < |s| ==> IsAuthorityTerminator(s[i]) && (c.path == None ==> !IsUrlSlash(s[i]))
  {
    AtParts(s, i, c.path.GetOr([]) + WithMark(QUESTION, c.query), WithMark(HASH, c.ref));
    AtParts(s, i, c.path.GetOr([]), WithMark(QUESTION, c.query));
  }

  /** The first character behind the slashes is not a slash, unless a path follows them at once, and the first
      terminator is that of the path, the query or the reference. */
  lemma AuthorityFound(c: Parts, s: bytes, i: nat)
    requires AuthorityForm(c) && TailForm(c) && (c.path.Some? ==> c.path.value[0] == SLASH)
    requires At(s, i, SlashesText(c) + AuthorityText(c) + Tail(c))
    requires |s| == i + |SlashesText(c) + AuthorityText(c) + Tail(c)|
    requires |AuthorityText(c)| > 0 || c.path == None
    ensures var begin := i + |SlashesText(c)|;
      AfterSlashes(s, i) == begin && AuthorityEnd(s, begin) == begin + |AuthorityText(c)|
  {
    AtParts(s, i, SlashesText(c) + AuthorityText(c), Tail(c));
    AtParts(s, i, SlashesText(c), AuthorityText(c));
    AuthorityEndFound(c, s, i + |SlashesText(c)|);
    SlashesFound(c, s, i);
  }

  lemma AuthorityEndFound(c: Parts, s: bytes, begin: nat)
    requires AuthorityForm(c) && TailForm(c) && (c.path.Some? ==> c.path.value[0] == SLASH)
    requires At(s, begin, AuthorityText(c)) && At(s, begin + |AuthorityText(c)|, Tail(c))
    requires |s| == begin + |AuthorityText(c)| + |Tail(c)|
    ensures AuthorityEnd(s, begin) == begin + |AuthorityText(c)|
  {
    TailEndsAuthority(c, s, begin + |AuthorityText(c)|);
    AuthorityHasNoTerminator(c, s, begin);
    FirstIs(s, begin, |s|, AuthorityTerminator, begin + |AuthorityText(c)|);
  }

  lemma SlashesFound(c: Parts, s: bytes, i: nat)
    requires AuthorityForm(c) && TailForm(c) && (c.path.Some? ==> c.path.value[0] == SLASH)
    requires At(s, i, SlashesText(c)) && At(s, i + |SlashesText(c)|, AuthorityText(c))
    requires At(s, i + |SlashesText(c)| + |AuthorityText(c)|, Tail(c))
    requires |s| == i + |SlashesText(c)| + |AuthorityText(c)| + |Tail(c)|
    requires |AuthorityText(c)| > 0 || c.path == None
    ensures AfterSlashes(s, i) == i + |SlashesText(c)|
  {
    var begin := i + |SlashesText(c)|;
    AuthorityHasNoTerminator(c, s, begin);
    TailEndsAuthority(c, s, begin + |AuthorityText(c)|);
    assert forall k :: i <= k < begin ==> s[k] == SLASH;
    FirstIs(s, i, |s|, NoSlash, begin);
  }

  lemma AuthorityHasNoTerminator(c: Parts, s: bytes, i: nat)
    requires AuthorityForm(c) && At(s, i, AuthorityText(c))
    ensures forall k :: i <= k < i + |AuthorityText(c)| ==> !IsAuthorityTerminator(s[k])
  {
    forall k | 0 <= k < |AuthorityText(c)| ensures !IsAuthorityTerminator(AuthorityText(c)[k]) {
      var t := AuthorityText(c);
      if t[k] in c.port.GetOr([]) {
        assert Dec.IsDigit(t[k]);
      } else if t[k] in c.host.GetOr([]) {
      } else if t[k] in c.username.GetOr([]) || t[k] in c.password.GetOr([]) {
      } else {
        assert t[k] == COLON || t[k] == AT;
      }
    }
    assert forall k :: i <= k < i + |AuthorityText(c)| ==> s[k] == AuthorityText(c)[k - i];
  }

  lemma SchemeFound(c: Parts, s: bytes)
    requires Splittable(c) && At(s, 0, c.scheme + [COLON])
    ensures TrimBegin(s) == 0 && SchemeOf(s) == Some(Component(0, |c.scheme|))
  {
    AtParts(s, 0, c.scheme, [COLON]);
    assert forall k :: 0 <= k < |c.scheme| ==> s[k] == c.scheme[k];
    FirstIs(s, 0, |s|, Inner, 0);
    FirstIs(s, 0, |s|, Mark(COLON), |c.scheme|);
  }

  /** Where the parts are, in the whole text or a text that begins with it. */
  lemma Layout(c: Parts, s: bytes)
    requires At(s, 0, Text(c))
    ensures At(s, 0, c.scheme + [COLON])
    ensures At(s, |c.scheme| + 1, SlashesText(c) + AuthorityText(c) + Tail(c))
    ensures At(s, |Head(c)|, AuthorityText(c))
    ensures At(s, |Head(c)| + |AuthorityText(c)|, Tail(c))
  {
    assert Text(c) == (c.scheme + [COLON]) + (SlashesText(c) + AuthorityText(c) + Tail(c));
    AtParts(s, 0, c.scheme + [COLON], SlashesText(c) + AuthorityText(c) + Tail(c));
    AtParts(s, 0, Head(c) + AuthorityText(c), Tail(c));
    AtParts(s, 0, Head(c), AuthorityText(c));
  }

  /** Everything behind the scheme, given where its parts are. */
  lemma RestSplits(c: Parts, s: bytes, after: nat, i: nat, j: nat)
    requires AuthorityForm(c) && TailForm(c) && after <= i <= j <= |s|
    requires i == AfterSlashes(s, after) && j == AuthorityEnd(s, i)
    requires At(s, i, AuthorityText(c)) && j == i + |AuthorityText(c)|
    requires At(s, j, Tail(c)) && |s| == j + |Tail(c)|
    ensures AfterScheme(s, after) == Combined(NO_COMPONENT, AuthorityRanges(c, i), TailRanges(c, j))
  {
    assert AuthorityOf(s, i, j) == AuthorityRanges(c, i) by { AuthoritySplits(c, s, i); }
    assert (if j == |s| then NO_PATH else PathOf(s, j, |s|)) == TailRanges(c, j) by { RestOfTail(c, s, j); }
  }

  /** A tail without any text is one that is not there. */
  lemma RestOfTail(c: Parts, s: bytes, j: nat)
    requires TailForm(c) && At(s, j, Tail(c)) && |s| == j + |Tail(c)|
    ensures (if j == |s| then NO_PATH else PathOf(s, j, |s|)) == TailRanges(c, j)
  {
    if j < |s| { TailSplits(c, s, j); }
  }

  /** A text that begins with the two slashes of an authority, and goes to the end. */
  lemma NetworkPathSplits(c: Parts, s: bytes, i: nat)
    requires AuthorityForm(c) && TailForm(c) && (c.path.Some? ==> c.path.value[0] == SLASH) && c.slashes
    requires At(s, i, SlashesText(c) + AuthorityText(c) + Tail(c))
    requires |s| == i + |SlashesText(c) + AuthorityText(c) + Tail(c)|
    requires |AuthorityText(c)| > 0 || c.path == None
    ensures AfterSlashes(s, i) == i + 2 && At(s, i + 2, AuthorityText(c)) && At(s, i + 2 + |AuthorityText(c)|, Tail(c))
    ensures AfterScheme(s, i)
      == Combined(NO_COMPONENT, AuthorityRanges(c, i + 2), TailRanges(c, i + 2 + |AuthorityText(c)|))
  {
    assert At(s, i + 2, AuthorityText(c)) && At(s, i + 2 + |AuthorityText(c)|, Tail(c)) by {
      AtParts(s, i, SlashesText(c) + AuthorityText(c), Tail(c));
      AtParts(s, i, SlashesText(c), AuthorityText(c));
    }
    AuthorityFound(c, s, i);
    RestSplits(c, s, i, i + 2, i + 2 + |AuthorityText(c)|);
  }

  lemma SplitsAgain(c: Parts)
    requires Splittable(c)
    ensures Trimmed(Text(c)) == Ranges(c, 0)
  {
    SchemeFound(c, Text(c));
    SplitsBehindScheme(c);
  }

  lemma SplitsBehindScheme(c: Parts)
    requires Splittable(c)
    ensures var begin := |Head(c)|;
      AfterScheme(Text(c), |c.scheme| + 1)
        == Combined(NO_COMPONENT, AuthorityRanges(c, begin), TailRanges(c, begin + |AuthorityText(c)|))
  {
    var s := Text(c);
    SplittableForms(c);
    Layout(c, s);
    AuthorityFound(c, s, |c.scheme| + 1);
    RestSplits(c, s, |c.scheme| + 1, |Head(c)|, |Head(c)| + |AuthorityText(c)|);
  }

  // ---- Trailing blanks -----------------------------------------------------------

  /** The reference without the blanks at its end. */
  function TrimmedRef(ref: Option<bytes>): (r: Option<bytes>)
    ensures r.Some? <==> ref.Some?
  {
    if ref == None then None else Some(ref.value[..LastOf(ref.value, 0, |ref.value|, Inner) + 1])
  }

  lemma TrimmedRefIsShorter(ref: Option<bytes>)
    ensures !EndsInBlank(TrimmedRef(ref))
    ensures TrimmedRef(ref) == ref <==> !EndsInBlank(ref)
    ensures ref.Some? ==> (|TrimmedRef(ref).value| == |ref.value| <==> !EndsInBlank(ref))
  {
    if ref.Some? {
      var last := LastOf(ref.value, 0, |ref.value|, Inner);
      LastIs(ref.value, 0, |ref.value|, Inner, last);
      assert ref.value[..|ref.value|] == ref.value;
    }
  }

  /** All but the reference. */
  function BeforeRef(c: Parts): bytes { Head(c) + AuthorityText(c) + (c.path.GetOr([]) + WithMark(QUESTION, c.query)) }

  lemma BeforeRefEndsInside(c: Parts)
    requires Splittable(c)
    ensures var t := BeforeRef(c); |t| > 0 && Inner.Has(t[|t| - 1])
  {
    var path, query := c.path.value, WithMark(QUESTION, c.query);
    if c.query.Some? {
      assert query[|query| - 1] == QUESTION || Query.Has(query[|query| - 1]);
    }
    assert Inner.Has((path + query)[|path + query| - 1]);
  }

  /** The last character that is no blank in a text and a reference. */
  lemma LastInside(before: bytes, ref: bytes)
    requires |before| > 0 && Inner.Has(before[|before| - 1])
    ensures var s := before + ref; LastOf(s, 0, |s|, Inner) == |before| + LastOf(ref, 0, |ref|, Inner)
  {
    var s := before + ref;
    var last := LastOf(ref, 0, |ref|, Inner);
    LastIs(ref, 0, |ref|, Inner, last);
    assert forall k :: |before| <= k < |s| ==> s[k] == ref[k - |before|];
    assert IsLast(s, 0, |s|, Inner, |before| + last);
    LastIs(s, 0, |s|, Inner, |before| + last);
  }

  lemma CutBehind(a: bytes, b: bytes, n: nat)
    requires n <= |b|
    ensures (a + b)[..|a| + n] == a + b[..n]
  {
  }

  lemma TextOfParts(c: Parts)
    ensures Text(c) == BeforeRef(c) + WithMark(HASH, c.ref)
  {
    Regroup(Head(c) + AuthorityText(c), c.path.GetOr([]) + WithMark(QUESTION, c.query), WithMark(HASH, c.ref));
  }

  lemma TrimmingTrimsText(before: bytes, ref: bytes)
    requires |before| > 0 && Inner.Has(before[|before| - 1])
    ensures var s := before + ref; s[..TrimEnd(s)] == before + ref[..LastOf(ref, 0, |ref|, Inner) + 1]
  {
    LastInside(before, ref);
    CutBehind(before, ref, LastOf(ref, 0, |ref|, Inner) + 1);
  }

  /** Trimming the URL trims the reference, and nothing else. */
  lemma TrimmingTrimsRef(c: Parts)
    requires Splittable(c)
    ensures Text(c)[..TrimEnd(Text(c))] == Text(c.(ref := TrimmedRef(c.ref)))
  {
    var before, kept := BeforeRef(c), TrimmedRef(c.ref);
    BeforeRefEndsInside(c);
    TextOfParts(c);
    TextOfParts(c.(ref := kept));
    if c.ref.Some? {
      TrimmingTrimsText(before + [HASH], c.ref.value);
      Regroup(before, [HASH], c.ref.value);
      Regroup(before, [HASH], kept.value);
    } else {
      TrimmingTrimsText(before, []);
    }
  }

  /** The parser finds the parts of the printed URL, but for the blanks at the end of the reference. */
  lemma ParsesBack(c: Parts)
    requires Splittable(c)
    ensures StandardURL(Text(c)) == Ranges(c.(ref := TrimmedRef(c.ref)), 0)
  {
    TrimmingTrimsRef(c);
    SplitsAgain(c.(ref := TrimmedRef(c.ref)));
  }

  /** It finds exactly the ranges the parts were printed at if and only if the reference does not end in a blank. */
  lemma ParsesBackIff(c: Parts)
    requires Splittable(c)
    ensures StandardURL(Text(c)) == Ranges(c, 0) <==> !EndsInBlank(c.ref)
  {
    ParsesBack(c);
    TrimmedRefIsShorter(c.ref);
    if EndsInBlank(c.ref) {
      assert Ranges(c.(ref := TrimmedRef(c.ref)), 0).ref.len < Ranges(c, 0).ref.len;
    }
  }

  // ---- The parts at their ranges ----------------------------------------------------

  lemma UserInfoTexts(c: Parts, s: bytes, i: nat)
    requires At(s, i, UserInfoText(c.username, c.password)) && (c.password.Some? ==> c.username.Some?)
    ensures RangeOf(c.username, i).Within(s) && RangeOf(c.username, i).Text(s) == c.username
    ensures var r := RangeOf(c.password, i + |c.username.GetOr([])| + 1); r.Within(s) && r.Text(s) == c.password
  {
    if c.username.Some? {
      var user, pass := c.username.value, WithMark(COLON, c.password);
      assert At(s, i, user) && At(s, i + |user|, pass) by {
        AtParts(s, i, user + pass, [AT]);
        AtParts(s, i, user, pass);
      }
      AtIsText(s, i, user);
      MarkedText(COLON, c.password, s, i + |user|);
    }
  }

  /** A part behind its mark. */
  lemma MarkedText(mark: byte, t: Option<bytes>, s: bytes, i: nat)
    requires At(s, i, WithMark(mark, t))
    ensures RangeOf(t, i + 1).Within(s) && RangeOf(t, i + 1).Text(s) == t
  {
    if t.Some? {
      AtParts(s, i, [mark], t.value);
      AtIsText(s, i + 1, t.value);
    }
  }

  lemma OwnText(t: Option<bytes>, s: bytes, i: nat)
    requires At(s, i, t.GetOr([]))
    ensures RangeOf(t, i).Within(s) && RangeOf(t, i).Text(s) == t
  {
    if t.Some? { AtIsText(s, i, t.value); }
  }

  lemma AuthorityTexts(c: Parts, s: bytes, i: nat)
    requires At(s, i, AuthorityText(c)) && (c.password.Some? ==> c.username.Some?)
    ensures var a := AuthorityRanges(c, i);
      && a.username.Within(s) && a.username.Text(s) == c.username
      && a.password.Within(s) && a.password.Text(s) == c.password
      && a.host.Within(s) && a.host.Text(s) == c.host
      && a.port.Within(s) && a.port.Text(s) == c.port
  {
    var server := i + |UserInfoText(c.username, c.password)|;
    AtParts(s, i, UserInfoText(c.username, c.password), ServerText(c));
    AtParts(s, server, c.host.GetOr([]), WithMark(COLON, c.port));
    UserInfoTexts(c, s, i);
    OwnText(c.host, s, server);
    MarkedText(COLON, c.port, s, server + |c.host.GetOr([])|);
  }

  lemma TailTexts(c: Parts, s: bytes, i: nat)
    requires At(s, i, Tail(c))
    ensures var p := TailRanges(c, i);
      && p.path.Within(s) && p.path.Text(s) == c.path
      && p.query.Within(s) && p.query.Text(s) == c.query
      && p.ref.Within(s) && p.ref.Text(s) == c.ref
  {
    var path, query := c.path.GetOr([]), WithMark(QUESTION, c.query);
    AtParts(s, i, path + query, WithMark(HASH, c.ref));
    AtParts(s, i, path, query);
    OwnText(c.path, s, i);
    MarkedText(QUESTION, c.query, s, i + |path|);
    MarkedText(HASH, c.ref, s, i + |path| + |query|);
  }

  /** Taken out of the text by their ranges, the parts are what was put in. */
  lemma TextsAtRanges(c: Parts, s: bytes)
    requires (c.password.Some? ==> c.username.Some?) && At(s, 0, Text(c))
    ensures var p := Ranges(c, 0);
      && p.Within(s) && p.scheme.Text(s) == Some(c.scheme)
      && p.username.Text(s) == c.username && p.password.Text(s) == c.password
      && p.host.Text(s) == c.host && p.port.Text(s) == c.port
      && p.path.Text(s) == c.path && p.query.Text(s) == c.query && p.ref.Text(s) == c.ref
  {
    SchemeText(c, s);
    TextsBehindScheme(c, s);
  }

  lemma TextsBehindScheme(c: Parts, s: bytes)
    requires (c.password.Some? ==> c.username.Some?) && At(s, 0, Text(c))
    ensures var a, p := AuthorityRanges(c, |Head(c)|), TailRanges(c, |Head(c)| + |AuthorityText(c)|);
      && a.username.Within(s) && a.username.Text(s) == c.username
      && a.password.Within(s) && a.password.Text(s) == c.password
      && a.host.Within(s) && a.host.Text(s) == c.host
      && a.port.Within(s) && a.port.Text(s) == c.port
      && p.path.Within(s) && p.path.Text(s) == c.path
      && p.query.Within(s) && p.query.Text(s) == c.query
      && p.ref.Within(s) && p.ref.Text(s) == c.ref
  {
    Layout(c, s);
    AuthorityTexts(c, s, |Head(c)|);
    TailTexts(c, s, |Head(c)| + |AuthorityText(c)|);
  }

  lemma SchemeText(c: Parts, s: bytes)
    requires At(s, 0, Text(c))
    ensures Component(0, |c.scheme|).Within(s) && Component(0, |c.scheme|).Text(s) == Some(c.scheme)
  {
    Layout(c, s);
    AtParts(s, 0, c.scheme, [COLON]);
    AtIsText(s, 0, c.scheme);
  }

  /** The text and its ranges determine the parts, if there is a host. */
  lemma TextAndRangesDecide(c: Parts, d: Parts)
    requires (c.password.Some? ==> c.username.Some?) && (d.password.Some? ==> d.username.Some?)
    requires c.host.Some? && Text(c) == Text(d) && Ranges(c, 0) == Ranges(d, 0)
    ensures c == d
  {
    TextsAtRanges(c, Text(c));
    TextsAtRanges(d, Text(c));
    assert |Head(c)| == |Head(d)|;
  }
}
