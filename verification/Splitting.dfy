/**
 How an authority is split whatever it holds: the user info ends at the last at sign, the user name at the first colon,
 and the port begins at the last colon behind the brackets. And what blanks before a string do to its ranges.
 */
module Splitting {
  import opened Bytes
  import opened Components
  import opened EtcSpec
  import opened ParseSpec
  import opened UrlText

  /** No colon of the host can be taken for that of a port. */
  predicate EndsBehindBrackets(host: bytes) {
    || (forall k :: 0 <= k < |host| ==> host[k] as char != ':')
    || host[|host| - 1] as char == ']'
    || (host[0] as char == '[' && forall k :: 0 <= k < |host| ==> host[k] as char != ']')
  }

  /** A left bracket at the beginning has a right one. */
  predicate ClosesBrackets(host: bytes) {
    |host| > 0 && host[0] as char == '[' ==> exists k :: 0 <= k < |host| && host[k] as char == ']'
  }

  predicate IsPortText(port: bytes) {
    forall k :: 0 <= k < |port| ==> port[k] as char != ':' && port[k] as char != ']' && port[k] as char != '@'
  }

  lemma ServerWithPort(s: bytes, i: nat, host: bytes, port: bytes)
    requires At(s, i, host + WithMark(COLON, Some(port))) && IsPortText(port) && ClosesBrackets(host)
    ensures ServerInfoOf(s, i, i + |host| + 1 + |port|)
      == (if |host| > 0 then Component(i, |host|) else NO_COMPONENT, Component(i + |host| + 1, |port|))
  {
    var colon := i + |host|;
    var end := colon + 1 + |port|;
    AtParts(s, i, host, [COLON] + port);
    AtParts(s, colon, [COLON], port);
    assert s[colon] == COLON && forall k :: colon < k < end ==> s[k] == port[k - colon - 1];
    LastIs(s, i, end, Mark(COLON), colon);
    var bracket := LastOf(s, i, end, Mark(RBRACKET));
    LastIs(s, i, end, Mark(RBRACKET), bracket);
    if |host| > 0 && host[0] == LBRACKET {
      var k :| 0 <= k < |host| && host[k] as char == ']';
      assert Mark(RBRACKET).Has(s[i + k]);
    }
  }

  lemma ServerWithoutPort(s: bytes, i: nat, host: bytes)
    requires |host| > 0 && At(s, i, host) && EndsBehindBrackets(host)
    ensures ServerInfoOf(s, i, i + |host|) == (Component(i, |host|), NO_COMPONENT)
  {
    var end := i + |host|;
    var colon, bracket := LastOf(s, i, end, Mark(COLON)), LastOf(s, i, end, Mark(RBRACKET));
    LastIs(s, i, end, Mark(COLON), colon);
    LastIs(s, i, end, Mark(RBRACKET), bracket);
    assert s[end - 1] == host[|host| - 1] && s[i] == host[0];
    assert colon >= 0 ==> host[colon - i] == COLON;
    assert bracket >= 0 ==> host[bracket - i] == RBRACKET;
    assert host[|host| - 1] == RBRACKET ==> Mark(RBRACKET).Has(s[end - 1]);
  }

  /** The user info is all before the last at sign. The password may hold anything. */
  lemma UserInfoBeforeLastAt(s: bytes, user: bytes, pass: Option<bytes>, server: bytes)
    requires s == user + WithMark(COLON, pass) + [AT] + server
    requires (forall k :: 0 <= k < |user| ==> user[k] as char != ':')
    requires (forall k :: 0 <= k < |server| ==> server[k] as char != '@')
    ensures var begin := |user + WithMark(COLON, pass)| + 1;
      AuthorityOf(s, 0, |s|) == Authority(
        Component(0, |user|), RangeOf(pass, |user| + 1), ServerInfoOf(s, begin, |s|).0, ServerInfoOf(s, begin, |s|).1)
  {
    var info := user + WithMark(COLON, pass);
    assert s[|info|] == AT && forall k :: |info| < k < |s| ==> s[k] == server[k - |info| - 1];
    LastIs(s, 0, |s|, Mark(AT), |info|);
    assert At(s, 0, info) by { assert forall k :: 0 <= k < |info| ==> s[k] == info[k]; }
    UserInfoSplits(s, 0, user, pass);
  }

  /** The whole of it. */
  lemma AuthoritySplitsAnyway(s: bytes, user: bytes, pass: Option<bytes>, host: bytes, port: Option<bytes>)
    requires s == user + WithMark(COLON, pass) + [AT] + (host + WithMark(COLON, port))
    requires forall k :: 0 <= k < |user| ==> user[k] as char != ':'
    requires forall k :: 0 <= k < |host| ==> host[k] as char != '@'
    requires match port case Some(p) => IsPortText(p) && ClosesBrackets(host) case None => |host| > 0 && EndsBehindBrackets(host)
    ensures var begin := |user + WithMark(COLON, pass)| + 1;
      AuthorityOf(s, 0, |s|) == Authority(
        Component(0, |user|), RangeOf(pass, |user| + 1),
        if |host| > 0 then Component(begin, |host|) else NO_COMPONENT, RangeOf(port, begin + |host| + 1))
  {
    var begin, server := |user + WithMark(COLON, pass)| + 1, host + WithMark(COLON, port);
    ServerLacksAt(host, port);
    UserInfoBeforeLastAt(s, user, pass, server);
    assert At(s, begin, server) by { assert forall k :: begin <= k < |s| ==> s[k] == server[k - begin]; }
    match port
    case Some(p) => ServerWithPort(s, begin, host, p);
    case None =>
      assert server == host;
      ServerWithoutPort(s, begin, host);
  }

  lemma ServerLacksAt(host: bytes, port: Option<bytes>)
    requires forall k :: 0 <= k < |host| ==> host[k] as char != '@'
    requires port.Some? ==> IsPortText(port.value)
    ensures var server := host + WithMark(COLON, port); forall k :: 0 <= k < |server| ==> server[k] as char != '@'
  {
  }

  // ---- Blanks in front ---------------------------------------------------------

  function Shift(c: Component, n: nat): Component { if c == NO_COMPONENT then c else Component(c.begin + n, c.len) }

  function ShiftAuthority(a: Authority, n: nat): Authority {
    Authority(Shift(a.username, n), Shift(a.password, n), Shift(a.host, n), Shift(a.port, n))
  }

  function ShiftPath(p: PathParts, n: nat): PathParts { PathParts(Shift(p.path, n), Shift(p.query, n), Shift(p.ref, n)) }

  function ShiftAll(p: Parsed, n: nat): Parsed {
    Parsed(Shift(p.scheme, n), Shift(p.username, n), Shift(p.password, n), Shift(p.host, n),
           Shift(p.port, n), Shift(p.path, n), Shift(p.query, n), Shift(p.ref, n))
  }

  lemma {:induction false} FirstBehind(b: bytes, s: bytes, i: nat, end: nat, wanted: Wanted)
    requires i <= end <= |s|
    ensures FirstOf(b + s, |b| + i, |b| + end, wanted) == |b| + FirstOf(s, i, end, wanted)
    decreases end - i
  {
    if i < end {
      assert (b + s)[|b| + i] == s[i];
      FirstBehind(b, s, i + 1, end, wanted);
    }
  }

  lemma {:induction false} LastBehind(b: bytes, s: bytes, begin: nat, end: nat, wanted: Wanted)
    requires begin <= end <= |s|
    ensures var k := LastOf(s, begin, end, wanted);
      LastOf(b + s, |b| + begin, |b| + end, wanted) == if k == -1 then -1 else |b| + k
    decreases end - begin
  {
    if begin < end {
      assert (b + s)[|b| + end - 1] == s[end - 1];
      LastBehind(b, s, begin, end - 1, wanted);
    }
  }

  lemma ServerBehind(b: bytes, s: bytes, begin: nat, end: nat)
    requires begin <= end <= |s|
    ensures var r := ServerInfoOf(s, begin, end);
      ServerInfoOf(b + s, |b| + begin, |b| + end) == (Shift(r.0, |b|), Shift(r.1, |b|))
  {
    LastBehind(b, s, begin, end, Mark(COLON));
    LastBehind(b, s, begin, end, Mark(RBRACKET));
    if begin < end { assert (b + s)[|b| + begin] == s[begin]; }
  }

  lemma AuthorityBehind(b: bytes, s: bytes, begin: nat, end: nat)
    requires begin <= end <= |s|
    ensures AuthorityOf(b + s, |b| + begin, |b| + end) == ShiftAuthority(AuthorityOf(s, begin, end), |b|)
  {
    LastBehind(b, s, begin, end, Mark(AT));
    var at := LastOf(s, begin, end, Mark(AT));
    ServerBehind(b, s, if at >= 0 then at + 1 else begin, end);
    if at >= 0 { FirstBehind(b, s, begin, at, Mark(COLON)); }
  }

  lemma PathBehind(b: bytes, s: bytes, begin: nat, end: nat)
    requires begin <= end <= |s|
    ensures PathOf(b + s, |b| + begin, |b| + end) == ShiftPath(PathOf(s, begin, end), |b|)
  {
    FirstBehind(b, s, begin, end, Mark(HASH));
    FirstBehind(b, s, begin, FirstOf(s, begin, end, Mark(HASH)), Mark(QUESTION));
  }

  lemma SlashesBehind(b: bytes, s: bytes, after: nat)
    requires after <= |s|
    ensures AfterSlashes(b + s, |b| + after) == |b| + AfterSlashes(s, after)
  {
    FirstBehind(b, s, after, |s|, NoSlash);
  }

  lemma EndBehind(b: bytes, s: bytes, begin: nat)
    requires begin <= |s|
    ensures AuthorityEnd(b + s, |b| + begin) == |b| + AuthorityEnd(s, begin)
  {
    FirstBehind(b, s, begin, |s|, AuthorityTerminator);
  }

  lemma RestBehind(b: bytes, s: bytes, end: nat)
    requires end <= |s|
    ensures var t, n := b + s, |b| + end;
      (if n == |t| then NO_PATH else PathOf(t, n, |t|)) == ShiftPath(if end == |s| then NO_PATH else PathOf(s, end, |s|), |b|)
  {
    PathBehind(b, s, end, |s|);
  }

  lemma AfterSchemeBehind(b: bytes, s: bytes, after: nat)
    requires after <= |s|
    ensures AfterScheme(b + s, |b| + after) == ShiftAll(AfterScheme(s, after), |b|)
  {
    var t, begin := b + s, AfterSlashes(s, after);
    var end := AuthorityEnd(s, begin);
    SlashesBehind(b, s, after);
    EndBehind(b, s, begin);
    AuthorityBehind(b, s, begin, end);
    RestBehind(b, s, end);
    AfterSchemeIs(s, after, begin, end, AuthorityOf(s, begin, end));
    AfterSchemeIs(t, |b| + after, |b| + begin, |b| + end, AuthorityOf(t, |b| + begin, |b| + end));
  }

  lemma AfterSchemeIs(s: bytes, after: nat, begin: nat, end: nat, a: Authority)
    requires after <= |s| && begin == AfterSlashes(s, after) && end == AuthorityEnd(s, begin) && a == AuthorityOf(s, begin, end)
    ensures AfterScheme(s, after) == Combined(NO_COMPONENT, a, if end == |s| then NO_PATH else PathOf(s, end, |s|))
  {
  }

  predicate AllBlank(b: bytes) { forall k :: 0 <= k < |b| ==> b[k] as char <= ' ' }

  lemma TrimBeginBehind(b: bytes, s: bytes)
    requires AllBlank(b)
    ensures TrimBegin(b + s) == |b| + TrimBegin(s)
  {
    var first := TrimBegin(s);
    FirstIs(s, 0, |s|, Inner, first);
    assert forall k :: |b| <= k < |b| + |s| ==> (b + s)[k] == s[k - |b|];
    FirstIs(b + s, 0, |b + s|, Inner, |b| + first);
  }

  lemma SchemeBehind(b: bytes, s: bytes)
    requires AllBlank(b)
    ensures SchemeOf(b + s).Some? <==> SchemeOf(s).Some?
    ensures SchemeOf(s).Some? ==> SchemeOf(b + s).value == Shift(SchemeOf(s).value, |b|)
  {
    TrimBeginBehind(b, s);
    FirstBehind(b, s, TrimBegin(s), |s|, Mark(COLON));
  }

  lemma BehindSchemeBehind(b: bytes, s: bytes)
    requires AllBlank(b)
    ensures BehindScheme(b + s) == |b| + BehindScheme(s)
    ensures SchemeOf(b + s).GetOr(NO_COMPONENT) == Shift(SchemeOf(s).GetOr(NO_COMPONENT), |b|)
  {
    SchemeBehind(b, s);
    TrimBeginBehind(b, s);
  }

  lemma TrimmedBehind(b: bytes, s: bytes)
    requires AllBlank(b)
    ensures Trimmed(b + s) == ShiftAll(Trimmed(s), |b|)
  {
    BehindSchemeBehind(b, s);
    AfterSchemeBehind(b, s, BehindScheme(s));
    TrimmedIs(s, AfterScheme(s, BehindScheme(s)));
    TrimmedIs(b + s, AfterScheme(b + s, BehindScheme(b + s)));
  }

  lemma TrimEndBehind(b: bytes, s: bytes)
    requires exists k :: 0 <= k < |s| && s[k] as char > ' '
    ensures TrimEnd(b + s) == |b| + TrimEnd(s)
  {
    var last := LastOf(s, 0, |s|, Inner);
    LastIs(s, 0, |s|, Inner, last);
    var k :| 0 <= k < |s| && s[k] as char > ' ';
    assert Inner.Has(s[k]);
    assert forall j :: |b| <= j < |b| + |s| ==> (b + s)[j] == s[j - |b|];
    LastIs(b + s, 0, |b + s|, Inner, |b| + last);
  }

  /** Blanks and control characters in front of a string that is not blank shift its ranges, and change nothing else. */
  lemma LeadingBlanks(b: bytes, s: bytes)
    requires AllBlank(b) && exists k :: 0 <= k < |s| && s[k] as char > ' '
    ensures StandardURL(b + s) == ShiftAll(StandardURL(s), |b|)
  {
    TrimEndBehind(b, s);
    assert (b + s)[..|b| + TrimEnd(s)] == b + s[..TrimEnd(s)];
    TrimmedBehind(b, s[..TrimEnd(s)]);
  }
}
