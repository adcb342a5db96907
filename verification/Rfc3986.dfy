/**
 References and their targets as RFC 3986 has them (sections 3, 4.2 and 5.2), independent of the parser of the library,
 and exactly when relative resolution agrees with them.
 */
module Rfc3986 {
  import opened Bytes
  import opened Components
  import opened Numbers
  import opened EtcSpec
  import opened HostSpec
  import opened PathSpec
  import opened PathInvariant
  import opened PathIdempotence
  import opened PathMerge
  import opened ParseSpec
  import opened UrlText
  import opened StandardUrlSpec
  import opened RelativeSpec

  // ---- The grammar -----------------------------------------------------------

  /** Section 3.2, with the user information split at its first colon as in section 3.2.1. */
  datatype UriAuthority = UriAuthority(user: Option<bytes>, password: Option<bytes>, host: bytes, port: Option<bytes>)

  /** A relative reference (section 4.2). Its path is always there, but may be empty. */
  datatype Reference = Reference(
    authority: Option<UriAuthority>,
    path: bytes,
    query: Option<bytes>,
    fragment: Option<bytes>)

  predicate NoDelimiter(t: bytes) { Lacks(t, SLASH) && Lacks(t, QUESTION) && Lacks(t, HASH) && Lacks(t, AT) }

  /** A literal in brackets, or a name, possibly an empty one. */
  predicate IsHost(host: bytes) {
    || (Lacks(host, COLON) && Lacks(host, LBRACKET) && Lacks(host, RBRACKET))
    || (|host| >= 2 && host[0] == LBRACKET && host[|host| - 1] == RBRACKET
        && Lacks(host[1..|host| - 1], LBRACKET) && Lacks(host[1..|host| - 1], RBRACKET))
  }

  predicate IsAuthority(a: UriAuthority) {
    && (a.password.Some? ==> a.user.Some?)
    && NoDelimiter(a.user.GetOr([])) && Lacks(a.user.GetOr([]), COLON) && NoDelimiter(a.password.GetOr([]))
    && NoDelimiter(a.host) && IsHost(a.host)
    && AllDigits(a.port.GetOr([]), Dec)
  }

  /** Section 3.3: behind an authority a path is empty or begins with a slash, and without one it does not begin with
      two. */
  predicate IsReference(r: Reference) {
    && Lacks(r.path, QUESTION) && Lacks(r.path, HASH) && Lacks(r.query.GetOr([]), HASH)
    && match r.authority
       case Some(a) => IsAuthority(a) && (|r.path| > 0 ==> r.path[0] == SLASH)
       case None => !(|r.path| >= 2 && r.path[0] == SLASH && r.path[1] == SLASH)
  }

  function UriAuthorityText(a: UriAuthority): bytes {
    (match a.user
     case None => []
     case Some(user) => user + WithMark(COLON, a.password) + [AT])
    + (a.host + WithMark(COLON, a.port))
  }

  /** Section 5.3. */
  function ReferenceText(r: Reference): bytes {
    (match r.authority
     case None => []
     case Some(a) => [SLASH, SLASH] + UriAuthorityText(a))
    + (r.path + WithMark(QUESTION, r.query) + WithMark(HASH, r.fragment))
  }

  // ---- Section 5.2 -----------------------------------------------------------

  /** Section 5.2.3. */
  function Merge(base: Source, path: bytes): bytes {
    var basePath := base.path.GetOr([]);
    if HasAuthority(base) && |basePath| == 0 then [SLASH] + path
    else basePath[..LastOf(basePath, 0, |basePath|, Mark(SLASH)) + 1] + path
  }

  /** Section 5.2.2, for a reference without a scheme. The removal of dot segments is left to the canonicalizer, and an
      empty path is one that is not there. */
  function Target(base: Source, r: Reference): Source {
    match r.authority
    case Some(a) =>
      Source(base.scheme, a.user, a.password, Some(a.host), a.port, if |r.path| > 0 then Some(r.path) else None, r.query, r.fragment)
    case None =>
      if |r.path| == 0 then base.(query := if r.query.Some? then r.query else base.query, ref := r.fragment)
      else base.(path := Some(if r.path[0] == SLASH then r.path else Merge(base, r.path)), query := r.query, ref := r.fragment)
  }

  // ---- Agreement -------------------------------------------------------------

  /** RFC 3986 has no backslashes. In a query or fragment they do no harm. */
  predicate NoBackslash(r: Reference) {
    && Lacks(r.path, BACKSLASH)
    && (r.authority.Some? ==>
          var a := r.authority.value;
          Lacks(a.user.GetOr([]), BACKSLASH) && Lacks(a.password.GetOr([]), BACKSLASH) && Lacks(a.host, BACKSLASH))
  }

  /** The reference stands at [begin..end) of a string. */
  predicate StandsIn(r: Reference, relative: bytes, begin: nat, end: nat) {
    IsReference(r) && begin <= end <= |relative| && relative[begin..end] == ReferenceText(r)
  }

  /** And a base with these parts can be resolved against. */
  predicate StandsAt(r: Reference, c: Parts, relative: bytes, begin: nat, end: nat) {
    StandsIn(r, relative, begin, end) && CanResolve(c, relative, begin, end)
  }

  /** Resolving gives the text, the ranges and the success of the target, canonicalized from scratch. */
  ghost predicate Agrees(r: Reference, c: Parts, relative: bytes, begin: nat, end: nat)
    requires CanResolve(c, relative, begin, end)
  {
    var t := Target(BaseSource(c), r);
    && !NeedsIdn(t.host.GetOr([]))
    && var u := CanonicalURL(t);
    Resolved(c, relative, begin, end) == Resolution(Text(u.parts), Ranges(u.parts, 0), u.ok)
  }

  /** An empty authority with a path behind it: a third slash. */
  predicate HasThirdSlash(r: Reference) {
    r.authority.Some? && |UriAuthorityText(r.authority.value)| == 0 && |r.path| > 0
  }

  function Directory(c: Parts): bytes { UpToLastSlash(c.path.GetOr([])) }

  /** When the library agrees with the standard. A reference with an authority is read in another way if there is a third
      slash, with an exception for "///?" and "///#". For one without, the base must have its slashes, and as much of
      its path as is kept must be stable and, if something with a ".." is appended to it, have no malformed percent
      sign. */
  predicate Conforms(r: Reference, c: Parts) {
    if r.authority.Some? then !HasThirdSlash(r) || (r.path == [SLASH] && (r.query.Some? || r.fragment.Some?))
    else
      c.slashes
      && if |r.path| == 0 then NoUnescapable(c.path.GetOr([]))
         else r.path[0] == SLASH
              || (NoUnescapable(Directory(c)) && (NoMalformedPercent(Directory(c)) || NoUp(r.path)))
  }

  // ---- The reference as the parser sees it -------------------------------------

  /** The parts of the reference, for the parser: empty hosts and paths are not there. */
  function AsParts(r: Reference): Parts {
    var path := if |r.path| > 0 then Some(r.path) else None;
    match r.authority
    case None => Parts([], false, None, None, None, None, path, r.query, r.fragment)
    case Some(a) => Parts([], true, a.user, a.password, if |a.host| > 0 then Some(a.host) else None, a.port, path, r.query, r.fragment)
  }

  lemma TextOfReference(r: Reference)
    ensures ReferenceText(r) == SlashesText(AsParts(r)) + AuthorityText(AsParts(r)) + Tail(AsParts(r))
    ensures r.authority.Some? ==> UriAuthorityText(r.authority.value) == AuthorityText(AsParts(r))
  {
    var p := AsParts(r);
    match r.authority
    case None => assert AuthorityText(p) == [];
    case Some(a) =>
  }

  lemma FormsOfReference(r: Reference)
    requires IsReference(r)
    ensures TailForm(AsParts(r)) && (NoBackslash(r) ==> AuthorityForm(AsParts(r)))
  {
    match r.authority
    case None =>
    case Some(a) =>
      if |a.host| > 0 && NoBackslash(r) { assert HostForm(a.host); }
  }

  lemma ReferenceAt(r: Reference, relative: bytes, begin: nat, end: nat)
    requires StandsIn(r, relative, begin, end)
    ensures var p := AsParts(r);
      && end == begin + |SlashesText(p) + AuthorityText(p) + Tail(p)|
      && At(relative, begin, SlashesText(p) + AuthorityText(p) + Tail(p))
      && At(relative[..end], begin, SlashesText(p) + AuthorityText(p) + Tail(p))
  {
    TextOfReference(r);
    assert forall k :: begin <= k < end ==> relative[k] == relative[begin..end][k - begin] == relative[..end][k];
  }

  // ---- References without an authority -----------------------------------------

  lemma TailIsAt(r: Reference, relative: bytes, begin: nat, end: nat)
    requires StandsIn(r, relative, begin, end) && r.authority == None
    ensures At(relative, begin, Tail(AsParts(r))) && At(relative[..end], begin, Tail(AsParts(r)))
    ensures end == begin + |Tail(AsParts(r))|
  {
    ReferenceAt(r, relative, begin, end);
    var p := AsParts(r);
    assert SlashesText(p) + AuthorityText(p) + Tail(p) == Tail(p);
  }

  lemma HasNoTwoSlashes(r: Reference, relative: bytes, begin: nat, end: nat)
    requires StandsIn(r, relative, begin, end) && NoBackslash(r) && r.authority == None
    ensures !HasTwoSlashes(relative, begin, end)
  {
    var p, s := AsParts(r), relative[..end];
    TailIsAt(r, relative, begin, end);
    AtParts(s, begin, p.path.GetOr([]) + WithMark(QUESTION, p.query), WithMark(HASH, p.ref));
    AtParts(s, begin, p.path.GetOr([]), WithMark(QUESTION, p.query));
    FirstIs(s, begin, |s|, NoSlash, if |r.path| > 0 && r.path[0] == SLASH then begin + 1 else begin);
  }

  /** What such a reference is resolved to, by the parts of the reference. */
  function SameHostParts(c: Parts, r: Reference): Canonical
    requires c.path.Some?
  {
    if |r.path| > 0 then
      var st := ResolvedPath(c.path.value, r.path);
      Canonical(c.(path := Some(st.out), query := CanonicalQuery(r.query), ref := CanonicalRef(r.fragment)), st.ok)
    else
      Canonical(c.(query := if r.query.Some? then CanonicalQuery(r.query) else c.query, ref := CanonicalRef(r.fragment)), true)
  }

  lemma PartsResolved(c: Parts, r: Reference, relative: bytes, begin: nat, end: nat)
    requires StandsAt(r, c, relative, begin, end) && r.authority == None && c.path.Some?
    ensures ResolvedParts(c, relative, begin, end) == SameHostParts(c, r)
  {
    TextsOfReference(r, relative, begin, end);
  }

  /** The parser finds the parts of such a reference. */
  lemma TextsOfReference(r: Reference, relative: bytes, begin: nat, end: nat)
    requires StandsIn(r, relative, begin, end) && r.authority == None
    ensures var p, ranges := AsParts(r), PathOf(relative, begin, end);
      && ranges.path.Within(relative) && ranges.path.Text(relative) == p.path
      && ranges.query.Within(relative) && ranges.query.Text(relative) == p.query
      && ranges.ref.Within(relative) && ranges.ref.Text(relative) == p.ref
  {
    var p := AsParts(r);
    TailIsAt(r, relative, begin, end);
    FormsOfReference(r);
    TailSplits(p, relative, begin);
    TailTexts(p, relative, begin);
  }

  lemma ReferenceResolved(src: Source, c: Parts, r: Reference, relative: bytes, begin: nat, end: nat)
    requires IsBase(src, c) && StandsAt(r, c, relative, begin, end) && r.authority == None
    requires !HasTwoSlashes(relative, begin, end)
    ensures c.path.Some? && var d := SameHostParts(c, r);
      Resolved(c, relative, begin, end) == Resolution(Text(d.parts), Ranges(d.parts, 0), d.ok)
  {
    BasePathIsClean(src, c);
    TailIsAt(r, relative, begin, end);
    if begin == end {
      EmptyReferenceText(src, c, relative, begin);
    } else {
      SameHostText(c, relative, begin, end);
      PartsResolved(c, r, relative, begin, end);
    }
  }

  /** The front of the target is canonical already, but for the slashes of a base without them. */
  lemma TargetUrl(src: Source, c: Parts, path: bytes, query: Option<bytes>, ref: Option<bytes>)
    requires IsBase(src, c)
    ensures var t := BaseSource(c).(path := Some(path), query := query, ref := ref); var r := CanonicalPath(path);
      && !NeedsIdn(t.host.GetOr([]))
      && CanonicalURL(t) == Canonical(
           c.(slashes := true, path := Some(r.out), query := CanonicalQuery(query), ref := CanonicalRef(ref)), r.ok)
  {
    AuthorityIsFixed(src);
    SchemeIdempotent(src.scheme.GetOr([]));
    var t := BaseSource(c).(path := Some(path), query := query, ref := ref);
    assert CanonicalAuthority(t) == CanonicalAuthority(Reparsed(c));
  }

  /** The path of the target of a reference without an authority. */
  function TargetPath(c: Parts, r: Reference): bytes {
    if |r.path| == 0 then c.path.GetOr([])
    else if r.path[0] == SLASH then r.path
    else Merge(BaseSource(c), r.path)
  }

  function TargetQuery(c: Parts, r: Reference): Option<bytes> {
    if |r.path| == 0 && r.query == None then c.query else r.query
  }

  lemma TargetOfReference(src: Source, c: Parts, r: Reference)
    requires IsBase(src, c) && r.authority == None
    ensures var t := Target(BaseSource(c), r); var u := CanonicalPath(TargetPath(c, r));
      && !NeedsIdn(t.host.GetOr([]))
      && CanonicalURL(t) == Canonical(
           c.(slashes := true, path := Some(u.out), query := CanonicalQuery(TargetQuery(c, r)), ref := CanonicalRef(r.fragment)),
           u.ok)
  {
    BasePathIsClean(src, c);
    TargetUrl(src, c, TargetPath(c, r), TargetQuery(c, r), r.fragment);
  }

  /** Agreement is a matter of the slashes and the path. */
  lemma AgreesIffSamePath(src: Source, c: Parts, r: Reference, relative: bytes, begin: nat, end: nat)
    requires IsBase(src, c) && StandsAt(r, c, relative, begin, end) && r.authority == None
    requires !HasTwoSlashes(relative, begin, end)
    ensures c.path.Some? && var d, u := SameHostParts(c, r), CanonicalPath(TargetPath(c, r));
      Agrees(r, c, relative, begin, end) <==> c.slashes && d.parts.path == Some(u.out) && d.ok == u.ok
  {
    ReferenceResolved(src, c, r, relative, begin, end);
    TargetOfReference(src, c, r);
    TextOfTypeIdempotent(src.query.GetOr([]), Query);
    var d, u := SameHostParts(c, r), CanonicalURL(Target(BaseSource(c), r));
    if Text(d.parts) == Text(u.parts) && Ranges(d.parts, 0) == Ranges(u.parts, 0) { TextAndRangesDecide(d.parts, u.parts); }
  }

  // ---- The three kinds -----------------------------------------------------------

  lemma EmptyPathAgreesIff(src: Source, c: Parts, r: Reference, relative: bytes, begin: nat, end: nat)
    requires IsBase(src, c) && StandsAt(r, c, relative, begin, end) && NoBackslash(r) && r.authority == None && |r.path| == 0
    ensures Agrees(r, c, relative, begin, end) <==> Conforms(r, c)
  {
    HasNoTwoSlashes(r, relative, begin, end);
    AgreesIffSamePath(src, c, r, relative, begin, end);
    BasePathIsClean(src, c);
    FixedIffNoUnescapable(c.path.value);
    CleanPathVerdict(c.path.value);
  }

  lemma CleanPathVerdict(q: bytes)
    requires IsCleanPath(q) && NoNulEscape(q)
    ensures CanonicalPath(q).ok
  {
    ScanOk(q, 0, Start([]));
  }

  lemma AbsolutePathAgreesIff(src: Source, c: Parts, r: Reference, relative: bytes, begin: nat, end: nat)
    requires IsBase(src, c) && StandsAt(r, c, relative, begin, end) && NoBackslash(r) && r.authority == None
    requires |r.path| > 0 && r.path[0] == SLASH
    ensures Agrees(r, c, relative, begin, end) <==> Conforms(r, c)
  {
    HasNoTwoSlashes(r, relative, begin, end);
    AgreesIffSamePath(src, c, r, relative, begin, end);
  }

  predicate HasRelativePath(r: Reference) { r.authority == None && |r.path| > 0 && r.path[0] != SLASH }

  /** Canonical paths have no backslashes, so the right-most slash of the standard is the last one of the library. */
  lemma RightMostSlash(q: bytes)
    requires CleanChars(q)
    ensures LastOf(q, 0, |q|, Mark(SLASH)) == LastOf(q, 0, |q|, Slash)
  {
    var last := LastOf(q, 0, |q|, Slash);
    LastIs(q, 0, |q|, Slash, last);
    if last >= 0 { assert IsOutChar(q[last]); }
    LastIs(q, 0, |q|, Mark(SLASH), last);
  }

  lemma MergeIsDirectory(src: Source, c: Parts, path: bytes)
    requires IsBase(src, c)
    ensures c.path.Some? && Merge(BaseSource(c), path) == Directory(c) + path
  {
    BasePathIsClean(src, c);
    RightMostSlash(c.path.value);
  }

  lemma RelativePathAgreesIff(src: Source, c: Parts, r: Reference, relative: bytes, begin: nat, end: nat)
    requires IsBase(src, c) && StandsAt(r, c, relative, begin, end) && NoBackslash(r) && HasRelativePath(r)
    ensures var st, u := Scan(r.path, 0, Start(Directory(c))), CanonicalPath(Directory(c) + r.path);
      Agrees(r, c, relative, begin, end) <==> c.slashes && st.out == u.out && st.ok == u.ok
  {
    HasNoTwoSlashes(r, relative, begin, end);
    AgreesIffSamePath(src, c, r, relative, begin, end);
    MergeIsDirectory(src, c, r.path);
  }

  lemma RelativePathAgrees(src: Source, c: Parts, r: Reference, relative: bytes, begin: nat, end: nat)
    requires IsBase(src, c) && StandsAt(r, c, relative, begin, end) && NoBackslash(r) && HasRelativePath(r)
    requires Conforms(r, c)
    ensures Agrees(r, c, relative, begin, end)
  {
    StableDirectoryAppends(src, c, r.path);
    RelativePathAgreesIff(src, c, r, relative, begin, end);
  }

  lemma StableDirectoryAppends(src: Source, c: Parts, path: bytes)
    requires IsBase(src, c) && NoUnescapable(Directory(c)) && (NoMalformedPercent(Directory(c)) || NoUp(path))
    ensures var st, u := Scan(path, 0, Start(Directory(c))), CanonicalPath(Directory(c) + path);
      st.out == u.out && st.ok == u.ok
  {
    assert c.path.Some? && IsCleanPath(c.path.value) && NoNulEscape(c.path.value) by { BasePathIsClean(src, c); }
    StableDirectory(c);
    MergeIsAppend(Directory(c), path);
  }

  lemma StableDirectory(c: Parts)
    requires c.path.Some? && IsCleanPath(c.path.value) && NoNulEscape(c.path.value) && NoUnescapable(Directory(c))
    ensures IsDirectory(Directory(c)) && NoNulEscape(Directory(c))
  {
    DirectoryIsClean(c.path.value);
  }

  // ---- Which bases agree for all relative paths ----------------------------------

  /** A reference that is nothing but a path. */
  function PathReference(path: bytes): Reference { Reference(None, path, None, None) }

  lemma PathReferenceText(path: bytes)
    ensures ReferenceText(PathReference(path)) == path
  {
    assert [] + (path + [] + []) == path;
  }

  lemma PathStands(src: Source, c: Parts, path: bytes)
    requires IsBase(src, c) && |path| > 0 && !IsUrlSlash(path[0])
    requires Lacks(path, QUESTION) && Lacks(path, HASH) && Lacks(path, BACKSLASH)
    ensures var r := PathReference(path);
      StandsAt(r, c, path, 0, |path|) && NoBackslash(r) && HasRelativePath(r)
  {
    assert path[..|path|] == path[0..|path|] == path;
    FirstIs(path, 0, |path|, NoSlash, 0);
    BaseCanResolve(src, c, path, 0, |path|);
    PathReferenceText(path);
  }

  lemma {:induction false} UpsLack(n: nat, mark: byte)
    requires mark != DOT && mark != SLASH
    ensures Lacks(Ups(n), mark) && (n > 0 ==> Ups(n)[0] == DOT)
  {
    if n > 0 { UpsLack(n - 1, mark); }
  }

  lemma DistinguishingLacks(a: bytes, last: nat, mark: byte)
    requires mark == QUESTION || mark == HASH || mark == BACKSLASH
    ensures Lacks(Distinguishing(a, last), mark)
  {
    UpsLack(|a|, mark);
  }

  /** A letter behind a directory with an escape that the scanner would replace. */
  lemma UnescapableDiffers(a: bytes)
    requires IsCleanPath(a) && a[|a| - 1] == SLASH && !NoUnescapable(a)
    ensures CanonicalPath(a + [0x78]).out != Scan([0x78], 0, Start(a)).out
  {
    var q := a + [0x78];
    assert IsCleanPath(q) by {
      forall k | 0 <= k < |q| ensures !DotSegmentAt(q, k) { if k < |a| { assert !DotSegmentAt(a, k); } }
      forall k | 0 <= k < |q| && q[k] == PERCENT && IsEscapeAt(q, k) ensures EscapeValue(q, k) != DOT {
        assert k + 3 <= |a| && EscapeValue(a, k) == EscapeValue(q, k);
      }
    }
    var t :| 0 <= t < |a| && a[t] == PERCENT && UnescapesAt(a, t);
    assert q[t] == PERCENT && UnescapesAt(q, t);
    UnescapableIsChanged(q);
    LiteralStep([0x78], 0, Start(a), q);
  }

  /** A relative path for which appending to the directory and merging with it differ. */
  lemma DifferingPath(a: bytes) returns (path: bytes)
    requires IsCleanPath(a) && a[|a| - 1] == SLASH && !(NoUnescapable(a) && NoMalformedPercent(a))
    ensures |path| > 0 && !IsUrlSlash(path[0])
    ensures Lacks(path, QUESTION) && Lacks(path, HASH) && Lacks(path, BACKSLASH)
    ensures CanonicalPath(a + path).out != Scan(path, 0, Start(a)).out
  {
    if NoUnescapable(a) {
      var last;
      path, last := MalformedDistinguishes(a);
      DistinguishingLacks(a, last, QUESTION);
      DistinguishingLacks(a, last, HASH);
      DistinguishingLacks(a, last, BACKSLASH);
      UpsLack(|a|, HASH);
    } else {
      path := [0x78];
      UnescapableDiffers(a);
    }
  }

  lemma DifferingPathOf(slashes: bool, a: bytes) returns (path: bytes)
    requires IsCleanPath(a) && a[|a| - 1] == SLASH && !(slashes && NoUnescapable(a) && NoMalformedPercent(a))
    ensures |path| > 0 && !IsUrlSlash(path[0])
    ensures Lacks(path, QUESTION) && Lacks(path, HASH) && Lacks(path, BACKSLASH)
    ensures slashes ==> CanonicalPath(a + path).out != Scan(path, 0, Start(a)).out
  {
    if slashes { path := DifferingPath(a); } else { path := [0x78]; }
  }

  lemma DirectoryOf(c: Parts)
    requires c.path.Some? && IsCleanPath(c.path.value)
    ensures var a := Directory(c); IsCleanPath(a) && a[|a| - 1] == SLASH
  {
    DirectoryIsClean(c.path.value);
  }

  lemma DirectoryOfBase(src: Source, c: Parts)
    requires IsBase(src, c)
    ensures var a := Directory(c); IsCleanPath(a) && a[|a| - 1] == SLASH
  {
    assert c.path.Some? && IsCleanPath(c.path.value) by { BasePathIsClean(src, c); }
    DirectoryOf(c);
  }

  lemma PathDiffers(src: Source, c: Parts, path: bytes)
    requires IsBase(src, c) && |path| > 0 && !IsUrlSlash(path[0])
    requires Lacks(path, QUESTION) && Lacks(path, HASH) && Lacks(path, BACKSLASH)
    requires c.slashes ==> CanonicalPath(Directory(c) + path).out != Scan(path, 0, Start(Directory(c))).out
    ensures var r := PathReference(path);
      && StandsAt(r, c, path, 0, |path|) && NoBackslash(r) && HasRelativePath(r)
      && !Agrees(r, c, path, 0, |path|)
  {
    PathStands(src, c, path);
    RelativePathAgreesIff(src, c, PathReference(path), path, 0, |path|);
  }

  /** A base that does not conform has a relative path that is resolved to something else. */
  lemma SomePathDiffers(src: Source, c: Parts) returns (path: bytes)
    requires IsBase(src, c) && !(c.slashes && NoUnescapable(Directory(c)) && NoMalformedPercent(Directory(c)))
    ensures |path| > 0 && var r := PathReference(path);
      && StandsAt(r, c, path, 0, |path|) && NoBackslash(r) && HasRelativePath(r)
      && !Agrees(r, c, path, 0, |path|)
  {
    DirectoryOfBase(src, c);
    path := DifferingPathOf(c.slashes, Directory(c));
    PathDiffers(src, c, path);
  }

  /** For every base: all references with a relative path are resolved as the standard says if and only if the base has
      its slashes and its directory neither a malformed percent sign nor an escape that a second run would replace. */
  lemma RelativePathsAgreeIff(src: Source, c: Parts)
    requires IsBase(src, c)
    ensures c.slashes && NoUnescapable(Directory(c)) && NoMalformedPercent(Directory(c)) <==>
      forall r: Reference, relative: bytes, begin: nat, end: nat ::
        StandsAt(r, c, relative, begin, end) && NoBackslash(r) && HasRelativePath(r) ==> Agrees(r, c, relative, begin, end)
  {
    if c.slashes && NoUnescapable(Directory(c)) && NoMalformedPercent(Directory(c)) {
      forall r: Reference, relative: bytes, begin: nat, end: nat |
        StandsAt(r, c, relative, begin, end) && NoBackslash(r) && HasRelativePath(r)
        ensures Agrees(r, c, relative, begin, end)
      {
        RelativePathAgrees(src, c, r, relative, begin, end);
      }
    } else {
      var path := SomePathDiffers(src, c);
    }
  }

  // ---- References with an authority -----------------------------------------------

  lemma SourceOfParts(p: Parts, s: bytes, i: nat, j: nat)
    requires At(s, i, AuthorityText(p)) && At(s, j, Tail(p)) && (p.password.Some? ==> p.username.Some?)
    ensures var ranges := Combined(NO_COMPONENT, AuthorityRanges(p, i), TailRanges(p, j));
      && ranges.Within(s)
      && SourceAt(s, ranges) == Source(None, p.username, p.password, p.host, p.port, p.path, p.query, p.ref)
  {
    AuthorityTexts(p, s, i);
    TailTexts(p, s, j);
  }

  lemma SchemeOfBase(c: Parts)
    requires Splittable(c)
    ensures Ranges(c, 0).Within(Text(c)) && Ranges(c, 0).scheme.Text(Text(c)) == Some(c.scheme)
  {
    TextsAtRanges(c, Text(c));
  }

  /** The source of a reference whose ranges are known. */
  lemma OtherHostFrom(c: Parts, relative: bytes, begin: nat, end: nat, p: Parts, i: nat, j: nat)
    requires Splittable(c) && begin <= end <= |relative|
    requires AfterScheme(relative[..end], begin) == Combined(NO_COMPONENT, AuthorityRanges(p, i), TailRanges(p, j))
    requires At(relative[..end], i, AuthorityText(p)) && At(relative[..end], j, Tail(p))
    requires p.password.Some? ==> p.username.Some?
    ensures Ranges(c, 0).Within(Text(c))
    ensures OtherHost(Text(c), Ranges(c, 0), relative, begin, end)
      == Source(Some(c.scheme), p.username, p.password, p.host, p.port, p.path, p.query, p.ref)
  {
    SchemeOfBase(c);
    SourceOfParts(p, relative[..end], i, j);
  }

  /** The code finds the parts of a text that is put together like a reference with an authority. */
  lemma NetworkPathSource(c: Parts, p: Parts, relative: bytes, begin: nat, end: nat)
    requires Splittable(c) && begin <= end <= |relative|
    requires AuthorityForm(p) && TailForm(p) && (p.path.Some? ==> p.path.value[0] == SLASH) && p.slashes
    requires At(relative[..end], begin, SlashesText(p) + AuthorityText(p) + Tail(p))
    requires end == begin + |SlashesText(p) + AuthorityText(p) + Tail(p)|
    requires |AuthorityText(p)| > 0 || p.path == None
    ensures HasTwoSlashes(relative, begin, end) && Ranges(c, 0).Within(Text(c))
    ensures OtherHost(Text(c), Ranges(c, 0), relative, begin, end)
      == Source(Some(c.scheme), p.username, p.password, p.host, p.port, p.path, p.query, p.ref)
  {
    var s, i, j := relative[..end], begin + 2, begin + 2 + |AuthorityText(p)|;
    assert AfterSlashes(s, begin) == i && At(s, i, AuthorityText(p)) && At(s, j, Tail(p))
      && AfterScheme(s, begin) == Combined(NO_COMPONENT, AuthorityRanges(p, i), TailRanges(p, j))
    by {
      NetworkPathSplits(p, s, begin);
    }
    OtherHostFrom(c, relative, begin, end, p, i, j);
  }

  /** What the code takes out of the reference and what the standard does give the same URL. */
  lemma SameUrl(base: Source, r: Reference)
    requires r.authority.Some? && !NeedsIdn(r.authority.value.host)
    ensures var p := AsParts(r);
      var o := Source(base.scheme, p.username, p.password, p.host, p.port, p.path, p.query, p.ref);
      && !NeedsIdn(o.host.GetOr([])) && !NeedsIdn(Target(base, r).host.GetOr([]))
      && CanonicalURL(o) == CanonicalURL(Target(base, r))
  {
    var p := AsParts(r);
    assert p.host.GetOr([]) == r.authority.value.host;
  }

  lemma ResolvedOther(src: Source, c: Parts, relative: bytes, begin: nat, end: nat)
    requires IsBase(src, c) && CanResolve(c, relative, begin, end) && HasTwoSlashes(relative, begin, end)
    ensures var u := CanonicalURL(OtherHost(Text(c), Ranges(c, 0), relative, begin, end));
      Resolved(c, relative, begin, end) == Resolution(Text(u.parts), Ranges(u.parts, 0), u.ok)
  {
    BasePathIsClean(src, c);
  }

  /** Without a third slash the code takes the parts of the reference out of it. */
  lemma OtherHostIs(r: Reference, c: Parts, relative: bytes, begin: nat, end: nat)
    requires Splittable(c) && StandsIn(r, relative, begin, end) && NoBackslash(r) && r.authority.Some? && !HasThirdSlash(r)
    ensures HasTwoSlashes(relative, begin, end) && Ranges(c, 0).Within(Text(c))
    ensures var p := AsParts(r);
      OtherHost(Text(c), Ranges(c, 0), relative, begin, end)
        == Source(Some(c.scheme), p.username, p.password, p.host, p.port, p.path, p.query, p.ref)
  {
    TextOfReference(r);
    FormsOfReference(r);
    ReferenceAt(r, relative, begin, end);
    NetworkPathSource(c, AsParts(r), relative, begin, end);
  }

  lemma AuthorityAgrees(src: Source, c: Parts, r: Reference, relative: bytes, begin: nat, end: nat)
    requires IsBase(src, c) && StandsAt(r, c, relative, begin, end) && NoBackslash(r) && r.authority.Some? && !HasThirdSlash(r)
    ensures Agrees(r, c, relative, begin, end)
  {
    OtherHostIs(r, c, relative, begin, end);
    ResolvedOther(src, c, relative, begin, end);
    assert AsParts(r).host.GetOr([]) == r.authority.value.host;
    SameUrl(BaseSource(c), r);
  }

  // ---- A third slash --------------------------------------------------------------

  /** An empty authority leaves the path right behind the two slashes. */
  lemma PathBehindSlashes(r: Reference, relative: bytes, begin: nat, end: nat)
    requires StandsIn(r, relative, begin, end) && HasThirdSlash(r)
    ensures var s := relative[..end];
      && end == begin + 2 + |Tail(AsParts(r))| && s[begin] == SLASH && s[begin + 1] == SLASH
      && At(s, begin + 2, Tail(AsParts(r))) && At(s, begin + 2, r.path)
  {
    var p, s := AsParts(r), relative[..end];
    TextOfReference(r);
    ReferenceAt(r, relative, begin, end);
    AtParts(s, begin, SlashesText(p) + AuthorityText(p), Tail(p));
    AtParts(s, begin, SlashesText(p), AuthorityText(p));
    AtParts(s, begin + 2, r.path + WithMark(QUESTION, p.query), WithMark(HASH, p.ref));
    AtParts(s, begin + 2, r.path, WithMark(QUESTION, p.query));
    assert s[begin..begin + 2] == [SLASH, SLASH];
  }

  /** All the slashes are skipped, and the authority is looked for behind them. */
  lemma SlashesSkipped(r: Reference, relative: bytes, begin: nat, end: nat)
    requires StandsIn(r, relative, begin, end) && NoBackslash(r) && HasThirdSlash(r)
    ensures var k := FirstOf(r.path, 0, |r.path|, NoSlash); var s := relative[..end];
      && AfterSlashes(s, begin) == begin + 2 + k && At(s, begin + 2, Tail(AsParts(r))) && end == begin + 2 + |Tail(AsParts(r))|
      && (k < |r.path| ==> AuthorityEnd(s, begin + 2 + k) > begin + 2 + k)
      && (k == |r.path| ==> AuthorityEnd(s, begin + 2 + k) == begin + 2 + k)
  {
    var s, k := relative[..end], FirstOf(r.path, 0, |r.path|, NoSlash);
    PathBehindSlashes(r, relative, begin, end);
    SlashesPassed(s, begin + 2, r.path, k);
    FirstIs(s, begin, |s|, NoSlash, begin + 2 + k);
  }

  /** What stands where the slashes of a path end: a character of it that ends no authority, or what is behind it. */
  lemma SlashesPassed(s: bytes, i: nat, path: bytes, k: nat)
    requires At(s, i, path) && k == FirstOf(path, 0, |path|, NoSlash)
    requires Lacks(path, QUESTION) && Lacks(path, HASH) && Lacks(path, BACKSLASH)
    ensures forall j :: i <= j < i + k ==> IsUrlSlash(s[j])
    ensures k < |path| ==> !IsAuthorityTerminator(s[i + k]) && !IsUrlSlash(s[i + k])
  {
    FirstIs(path, 0, |path|, NoSlash, k);
  }

  lemma SomeAuthority(s: bytes, begin: nat, end: nat)
    requires begin < end <= |s|
    ensures var a := AuthorityOf(s, begin, end); a.username.IsValid() || a.host.len > 0 || a.port.IsValid()
  {
  }

  /** The URL of the target has no authority, so its path begins right behind the scheme. */
  lemma TargetWithoutHost(base: Source, r: Reference)
    requires IsReference(r) && HasThirdSlash(r)
    ensures var t := Target(base, r); var scheme := Scheme(base.scheme.GetOr([])).text;
      && !NeedsIdn(t.host.GetOr([]))
      && CanonicalURL(t) == Canonical(
           Parts(scheme, false, None, None, None, None, Some(CanonicalPath(r.path).out), CanonicalQuery(r.query), CanonicalRef(r.fragment)),
           false)
  {
    var a := r.authority.value;
    assert a.user.Some? || a.port.Some? || |a.host| > 0 ==> |UriAuthorityText(a)| > 0;
    assert !NeedsIdn([]);
  }

  /** Something is behind the slashes: the code takes it for the authority. */
  lemma HostMadeUp(src: Source, c: Parts, r: Reference, relative: bytes, begin: nat, end: nat)
    requires IsBase(src, c) && StandsAt(r, c, relative, begin, end) && NoBackslash(r) && HasThirdSlash(r)
    requires FirstOf(r.path, 0, |r.path|, NoSlash) < |r.path|
    ensures !Agrees(r, c, relative, begin, end)
  {
    OtherHasAuthority(c, r, relative, begin, end);
    ResolvedOther(src, c, relative, begin, end);
    TargetWithoutHost(BaseSource(c), r);
    PathBehindAuthority(OtherHost(Text(c), Ranges(c, 0), relative, begin, end));
  }

  lemma OtherHasAuthority(c: Parts, r: Reference, relative: bytes, begin: nat, end: nat)
    requires Splittable(c) && StandsIn(r, relative, begin, end) && NoBackslash(r) && HasThirdSlash(r)
    requires FirstOf(r.path, 0, |r.path|, NoSlash) < |r.path|
    ensures HasTwoSlashes(relative, begin, end) && Ranges(c, 0).Within(Text(c))
    ensures var o := OtherHost(Text(c), Ranges(c, 0), relative, begin, end); HasAuthority(o) && o.scheme == Some(c.scheme)
  {
    var s, b := relative[..end], begin + 2 + FirstOf(r.path, 0, |r.path|, NoSlash);
    assert AfterSlashes(s, begin) == b && b < AuthorityEnd(s, b) by { SlashesSkipped(r, relative, begin, end); }
    SomeAuthority(s, b, AuthorityEnd(s, b));
    AfterSchemeWithin(s, begin);
    SchemeOfBase(c);
  }

  lemma PathBehindAuthority(o: Source)
    requires HasAuthority(o) && o.scheme.Some? && !NeedsIdn(o.host.GetOr([]))
    ensures Ranges(CanonicalURL(o).parts, 0).path.begin >= |Scheme(o.scheme.value).text| + 3
  {
  }

  /** Nothing but slashes: the code finds neither an authority nor a path. */
  lemma OnlySlashes(r: Reference, c: Parts, relative: bytes, begin: nat, end: nat)
    requires Splittable(c) && StandsIn(r, relative, begin, end) && NoBackslash(r) && HasThirdSlash(r)
    requires FirstOf(r.path, 0, |r.path|, NoSlash) == |r.path|
    ensures HasTwoSlashes(relative, begin, end) && Ranges(c, 0).Within(Text(c))
    ensures OtherHost(Text(c), Ranges(c, 0), relative, begin, end)
      == Source(Some(c.scheme), None, None, None, None, None, r.query, r.fragment)
  {
    var s, b := relative[..end], begin + 2 + |r.path|;
    var rest := Parts([], true, None, None, None, None, None, r.query, r.fragment);
    SlashesSkipped(r, relative, begin, end);
    FormsOfReference(r);
    assert Tail(AsParts(r)) == r.path + Tail(rest);
    AtParts(s, begin + 2, r.path, Tail(rest));
    RestSplits(rest, s, begin, b, b);
    OtherHostFrom(c, relative, begin, end, rest, b, b);
  }

  lemma SlashesAreCanonical(path: bytes)
    requires |path| > 0 && forall k :: 0 <= k < |path| ==> path[k] == SLASH
    ensures CanonicalPath(path).out == path
  {
    CanonicalIsFixed(path);
  }

  /** A URL of a scheme alone, against one with a path of nothing but slashes. */
  lemma SlashesAgainstNone(scheme: bytes, path: bytes, query: Option<bytes>, ref: Option<bytes>)
    requires |path| > 0
    ensures var none := Parts(scheme, false, None, None, None, None, if query.Some? || ref.Some? then Some([SLASH]) else None, query, ref);
      var some := none.(path := Some(path));
      Text(none) == Text(some) && Ranges(none, 0) == Ranges(some, 0) <==> path == [SLASH] && (query.Some? || ref.Some?)
  {
    var none := Parts(scheme, false, None, None, None, None, if query.Some? || ref.Some? then Some([SLASH]) else None, query, ref);
    var some := none.(path := Some(path));
    if Text(none) == Text(some) && Ranges(none, 0) == Ranges(some, 0) && (query.Some? || ref.Some?) {
      assert |path| == 1;
      PathBehindScheme(none);
      PathBehindScheme(some);
    }
  }

  lemma PathBehindScheme(p: Parts)
    requires !p.slashes && AuthorityText(p) == [] && p.path.Some? && |p.path.value| > 0
    ensures |Text(p)| > |p.scheme| + 1 && Text(p)[|p.scheme| + 1] == p.path.value[0]
  {
    var front := p.scheme + [COLON];
    assert Text(p) == front + p.path.value + (WithMark(QUESTION, p.query) + WithMark(HASH, p.ref));
  }

  /** The URL that the code makes of it. */
  lemma OnlySlashesResolved(src: Source, c: Parts, r: Reference, relative: bytes, begin: nat, end: nat)
    requires IsBase(src, c) && StandsAt(r, c, relative, begin, end) && NoBackslash(r) && HasThirdSlash(r)
    requires FirstOf(r.path, 0, |r.path|, NoSlash) == |r.path|
    ensures var d := Parts(Scheme(c.scheme).text, false, None, None, None, None,
                           if r.query.Some? || r.fragment.Some? then Some([SLASH]) else None,
                           CanonicalQuery(r.query), CanonicalRef(r.fragment));
      Resolved(c, relative, begin, end) == Resolution(Text(d), Ranges(d, 0), false)
  {
    OnlySlashes(r, c, relative, begin, end);
    SchemeOnly(c.scheme, r.query, r.fragment);
    ResolvedOther(src, c, relative, begin, end);
  }

  /** And the URL of the target. */
  lemma OnlySlashesTarget(c: Parts, r: Reference)
    requires IsReference(r) && HasThirdSlash(r) && FirstOf(r.path, 0, |r.path|, NoSlash) == |r.path| && NoBackslash(r)
    ensures var t := Target(BaseSource(c), r);
      && !NeedsIdn(t.host.GetOr([]))
      && CanonicalURL(t) == Canonical(
           Parts(Scheme(c.scheme).text, false, None, None, None, None, Some(r.path), CanonicalQuery(r.query), CanonicalRef(r.fragment)),
           false)
  {
    FirstIs(r.path, 0, |r.path|, NoSlash, |r.path|);
    assert forall k :: 0 <= k < |r.path| ==> IsUrlSlash(r.path[k]);
    SlashesAreCanonical(r.path);
    TargetWithoutHost(BaseSource(c), r);
  }

  lemma OnlySlashesAgreeIff(src: Source, c: Parts, r: Reference, relative: bytes, begin: nat, end: nat)
    requires IsBase(src, c) && StandsAt(r, c, relative, begin, end) && NoBackslash(r) && HasThirdSlash(r)
    requires FirstOf(r.path, 0, |r.path|, NoSlash) == |r.path|
    ensures Agrees(r, c, relative, begin, end) <==> Conforms(r, c)
  {
    OnlySlashesResolved(src, c, r, relative, begin, end);
    OnlySlashesTarget(c, r);
    SlashesAgainstNone(Scheme(c.scheme).text, r.path, CanonicalQuery(r.query), CanonicalRef(r.fragment));
  }

  lemma SchemeOnly(scheme: bytes, query: Option<bytes>, ref: Option<bytes>)
    ensures var o := Source(Some(scheme), None, None, None, None, None, query, ref);
      && !NeedsIdn(o.host.GetOr([]))
      && CanonicalURL(o) == Canonical(
           Parts(Scheme(scheme).text, false, None, None, None, None,
                 if query.Some? || ref.Some? then Some([SLASH]) else None, CanonicalQuery(query), CanonicalRef(ref)),
           false)
  {
  }

  // ---- The theorems ----------------------------------------------------------------

  lemma AuthorityAgreesIff(src: Source, c: Parts, r: Reference, relative: bytes, begin: nat, end: nat)
    requires IsBase(src, c) && StandsAt(r, c, relative, begin, end) && NoBackslash(r) && r.authority.Some?
    ensures Agrees(r, c, relative, begin, end) <==> Conforms(r, c)
  {
    if !HasThirdSlash(r) {
      AuthorityAgrees(src, c, r, relative, begin, end);
    } else if FirstOf(r.path, 0, |r.path|, NoSlash) == |r.path| {
      OnlySlashesAgreeIff(src, c, r, relative, begin, end);
    } else {
      HostMadeUp(src, c, r, relative, begin, end);
    }
  }

  /** For every valid base and every reference without a relative path: resolving it agrees with the standard if and only
      if the condition holds. */
  lemma ResolutionAgreesIff(src: Source, c: Parts, r: Reference, relative: bytes, begin: nat, end: nat)
    requires IsBase(src, c) && StandsAt(r, c, relative, begin, end) && NoBackslash(r) && !HasRelativePath(r)
    ensures Agrees(r, c, relative, begin, end) <==> Conforms(r, c)
  {
    if r.authority.Some? { AuthorityAgreesIff(src, c, r, relative, begin, end); }
    else if |r.path| == 0 { EmptyPathAgreesIff(src, c, r, relative, begin, end); }
    else { AbsolutePathAgreesIff(src, c, r, relative, begin, end); }
  }

  /** For every valid base and every reference: under the condition, the text, the ranges and the success are those of
      the target that section 5.2 puts together. */
  lemma ResolutionIsRfc3986(src: Source, c: Parts, r: Reference, relative: bytes, begin: nat, end: nat)
    requires IsBase(src, c) && StandsAt(r, c, relative, begin, end) && NoBackslash(r) && Conforms(r, c)
    ensures Agrees(r, c, relative, begin, end)
  {
    if HasRelativePath(r) { RelativePathAgrees(src, c, r, relative, begin, end); }
    else { ResolutionAgreesIff(src, c, r, relative, begin, end); }
  }

  // ---- Each part of the condition is needed ------------------------------------------

  /** "///g" */
  const THREE_SLASHES: bytes := [SLASH, SLASH, SLASH, 0x67]

  /** An empty authority and the path "/g". */
  const THIRD_SLASH := Reference(Some(UriAuthority(None, None, [], None)), [SLASH, 0x67], None, None)

  lemma ThreeSlashesSource(c: Parts)
    requires Splittable(c)
    ensures HasTwoSlashes(THREE_SLASHES, 0, 4) && Ranges(c, 0).Within(Text(c))
    ensures OtherHost(Text(c), Ranges(c, 0), THREE_SLASHES, 0, 4)
      == Source(Some(c.scheme), None, None, Some([0x67]), None, None, None, None)
  {
    var p := Parts([], true, None, None, Some([0x67]), None, None, None, None);
    var s := THREE_SLASHES[..4];
    assert s == THREE_SLASHES;
    FirstIs(s, 0, 4, NoSlash, 3);
    FirstIs(s, 3, 4, AuthorityTerminator, 4);
    assert AuthorityText(p) == [0x67] && Tail(p) == [];
    RestSplits(p, s, 0, 3, 4);
    OtherHostFrom(c, THREE_SLASHES, 0, 4, p, 3, 4);
  }

  /** The URL of the host g, with a canonical scheme. */
  lemma UrlOfG(scheme: bytes)
    requires Scheme(scheme) == Checked(scheme, true)
    ensures var o := Source(Some(scheme), None, None, Some([0x67]), None, None, None, None);
      && !NeedsIdn(o.host.GetOr([])) && CanonicalURL(o).ok && CanonicalURL(o).parts.host == Some([0x67])
  {
    assert IsPlainName([0x67]) by { assert !IsIPv4Char([0x67][0]); }
    PlainNameIsKept([0x67]);
  }

  lemma ThreeSlashesStand()
    ensures StandsIn(THIRD_SLASH, THREE_SLASHES, 0, 4) && NoBackslash(THIRD_SLASH) && HasThirdSlash(THIRD_SLASH)
  {
    assert THREE_SLASHES[0..4] == THREE_SLASHES == [SLASH, SLASH] + ([SLASH, 0x67] + [] + []);
    assert UriAuthorityText(THIRD_SLASH.authority.value) == [];
  }

  lemma ThreeSlashesCanResolve(src: Source, c: Parts)
    requires IsBase(src, c)
    ensures CanResolve(c, THREE_SLASHES, 0, 4)
  {
    BaseIsParsedString(src, c);
    ThreeSlashesSource(c);
    assert !NeedsIdn([0x67]) by { SchemeIdempotent(src.scheme.GetOr([])); UrlOfG(c.scheme); }
  }

  lemma ThreeSlashesResolved(src: Source, c: Parts)
    requires IsBase(src, c) && CanResolve(c, THREE_SLASHES, 0, 4)
    ensures Resolved(c, THREE_SLASHES, 0, 4).ok && Resolved(c, THREE_SLASHES, 0, 4).parsed.host.len == 1
  {
    BaseIsParsedString(src, c);
    SchemeIdempotent(src.scheme.GetOr([]));
    ThreeSlashesSource(c);
    UrlOfG(c.scheme);
    ResolvedOther(src, c, THREE_SLASHES, 0, 4);
  }

  /** For every base: "///g" is resolved to a valid URL with the host g. Its target in the standard has an empty host,
      and is no valid URL. */
  lemma ThirdSlashIsNeeded(src: Source, c: Parts)
    requires IsBase(src, c)
    ensures StandsAt(THIRD_SLASH, c, THREE_SLASHES, 0, 4) && NoBackslash(THIRD_SLASH)
    ensures Resolved(c, THREE_SLASHES, 0, 4).ok && Resolved(c, THREE_SLASHES, 0, 4).parsed.host.len == 1
    ensures !Agrees(THIRD_SLASH, c, THREE_SLASHES, 0, 4)
    ensures var t := Target(BaseSource(c), THIRD_SLASH); !NeedsIdn(t.host.GetOr([])) && !CanonicalURL(t).ok
  {
    ThreeSlashesStand();
    ThreeSlashesCanResolve(src, c);
    ThreeSlashesResolved(src, c);
    TargetWithoutHost(BaseSource(c), THIRD_SLASH);
  }

  /** A backslash and the letter g. */
  const BACKSLASHED: bytes := [BACKSLASH, 0x67]

  lemma BackslashIsAbsolute()
    ensures CanonicalPath(BACKSLASHED).out == [SLASH, 0x67]
  {
    assert [] + [SLASH] == [SLASH] && [SLASH] + [0x67] == [SLASH, 0x67];
    assert Step(BACKSLASHED, 0, Start([])) == (1, Start([SLASH]));
    LiteralStep(BACKSLASHED, 1, Start([SLASH]), [SLASH, 0x67]);
  }

  lemma BackslashMerged(a: bytes)
    requires IsDirectory(a)
    ensures |CanonicalPath(a + BACKSLASHED).out| > 2
  {
    var mid := MergedScan(a, BACKSLASHED);
    assert Step(BACKSLASHED, 0, mid) == (1, mid.Push([SLASH]));
    LiteralStep(BACKSLASHED, 1, mid.Push([SLASH]), mid.out + [SLASH] + [0x67]);
  }

  lemma BackslashStands(src: Source, c: Parts)
    requires IsBase(src, c)
    ensures var r := PathReference(BACKSLASHED);
      StandsAt(r, c, BACKSLASHED, 0, 2) && HasRelativePath(r) && !NoBackslash(r) && !HasTwoSlashes(BACKSLASHED, 0, 2)
  {
    PathReferenceText(BACKSLASHED);
    assert BACKSLASHED[..2] == BACKSLASHED[0..2] == BACKSLASHED;
    FirstIs(BACKSLASHED, 0, 2, NoSlash, 1);
    BaseCanResolve(src, c, BACKSLASHED, 0, 2);
  }

  lemma BackslashDiffers(a: bytes)
    requires IsCleanPath(a) && a[|a| - 1] == SLASH && NoUnescapable(a)
    ensures CanonicalPath(BACKSLASHED).out != CanonicalPath(a + BACKSLASHED).out
  {
    BackslashIsAbsolute();
    BackslashMerged(a);
  }

  /** For every base with a stable directory: a path that begins with a backslash would be a relative one, if the
      standard had backslashes, but is resolved as an absolute one. */
  lemma NoBackslashIsNeeded(src: Source, c: Parts)
    requires IsBase(src, c) && NoUnescapable(Directory(c))
    ensures var r := PathReference(BACKSLASHED);
      && StandsAt(r, c, BACKSLASHED, 0, 2) && HasRelativePath(r) && !NoBackslash(r)
      && !Agrees(r, c, BACKSLASHED, 0, 2)
  {
    BackslashStands(src, c);
    DirectoryOfBase(src, c);
    BackslashDiffers(Directory(c));
    BackslashAgreesIff(src, c);
  }

  lemma BackslashAgreesIff(src: Source, c: Parts)
    requires IsBase(src, c) && StandsAt(PathReference(BACKSLASHED), c, BACKSLASHED, 0, 2) && !HasTwoSlashes(BACKSLASHED, 0, 2)
    ensures Agrees(PathReference(BACKSLASHED), c, BACKSLASHED, 0, 2)
      ==> CanonicalPath(BACKSLASHED).out == CanonicalPath(Directory(c) + BACKSLASHED).out
  {
    AgreesIffSamePath(src, c, PathReference(BACKSLASHED), BACKSLASHED, 0, 2);
    MergeIsDirectory(src, c, BACKSLASHED);
  }
}
