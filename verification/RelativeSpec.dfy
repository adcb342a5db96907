/**
 Relative resolution (url_canon_relative.cc) as functions over bytes, and what it keeps of every valid base.
 */
module RelativeSpec {
  import opened Bytes
  import opened Components
  import opened EtcSpec
  import opened HostSpec
  import opened PathSpec
  import opened PathInvariant
  import opened PathIdempotence
  import opened PathMerge
  import opened ParseSpec
  import opened UrlText
  import opened StandardUrlSpec

  // ---- The pieces ------------------------------------------------------------

  /** CopyToLastSlash: nothing, if there is no slash. */
  function UpToLastSlash(s: bytes): (kept: bytes)
    ensures |kept| <= |s|
  {
    s[..LastOf(s, 0, |s|, Slash) + 1]
  }

  /** Parsed::Length(): the end of the last component that is there, passing over the mark behind it. */
  function Length(p: Parsed): int {
    if p.ref.IsValid() then p.ref.End()
    else if p.query.IsValid() then p.query.End()
    else if p.path.IsValid() then p.path.End()
    else if p.port.IsValid() then p.port.End()
    else if p.host.IsValid() then p.host.End()
    else if p.password.IsValid() then p.password.End() + 1
    else if p.username.IsValid() then p.username.End() + 1
    else if p.scheme.IsValid() then p.scheme.End() + 1
    else 0
  }

  /** A string and its components: a reference stands behind its mark. */
  predicate IsParsedString(base: bytes, p: Parsed) {
    p.Within(base) && Length(p) <= |base| && (p.ref.IsValid() ==> p.ref.begin > 0)
  }

  datatype Resolution = Resolution(text: bytes, parsed: Parsed, ok: bool)

  /** A path, a query and a reference behind the unchanged front of the base. */
  function Behind(base: bytes, p: Parsed, path: bytes, query: Option<bytes>, ref: Option<bytes>, ok: bool): Resolution
    requires p.path.begin <= |base|
  {
    var begin := p.path.begin;
    Resolution(
      base[..begin] + path + WithMark(QUESTION, query) + WithMark(HASH, ref),
      p.(path := Component(begin, |path|),
         query := RangeOf(query, begin + |path| + 1),
         ref := RangeOf(ref, begin + |path| + |WithMark(QUESTION, query)| + 1)),
      ok)
  }

  /** The path of a reference that has one: an absolute one replaces that of the base, a relative one is appended to
      the directory of the base. */
  function ResolvedPath(basePath: bytes, path: bytes): State
    requires |path| > 0
  {
    if IsUrlSlash(path[0]) then CanonicalPath(path) else Scan(path, 0, Start(UpToLastSlash(basePath)))
  }

  /** DoResolveRelativePath. */
  function SameHost(base: bytes, p: Parsed, relative: bytes, begin: nat, end: nat): Resolution
    requires p.Within(base) && p.path.len > 0 && begin <= end <= |relative|
  {
    PathWithin(relative, begin, end);
    var r := PathOf(relative, begin, end);
    var basePath := p.path.Text(base).value;
    var query, ref := CanonicalQuery(r.query.Text(relative)), CanonicalRef(r.ref.Text(relative));
    if r.path.len > 0 then
      var st := ResolvedPath(basePath, r.path.Text(relative).value);
      Behind(base, p, st.out, query, ref, st.ok)
    else
      Behind(base, p, basePath, if r.query.IsValid() then query else p.query.Text(base), ref, true)
  }

  /** The components of a reference that begins with two slashes. Only the scheme is that of the base. */
  function OtherHost(base: bytes, p: Parsed, relative: bytes, begin: nat, end: nat): Source
    requires p.Within(base) && begin <= end <= |relative|
  {
    AfterSchemeWithin(relative[..end], begin);
    SourceAt(relative[..end], AfterScheme(relative[..end], begin)).(scheme := p.scheme.Text(base))
  }

  predicate HasTwoSlashes(relative: bytes, begin: nat, end: nat)
    requires begin <= end <= |relative|
  {
    AfterSlashes(relative[..end], begin) >= begin + 2
  }

  /** The host of the reference, if it brings one, is not left to the IDN conversion. */
  predicate NeedsNoIdn(base: bytes, p: Parsed, relative: bytes, begin: nat, end: nat)
    requires p.Within(base) && begin <= end <= |relative|
  {
    HasTwoSlashes(relative, begin, end) ==> !NeedsIdn(OtherHost(base, p, relative, begin, end).host.GetOr([]))
  }

  /** DoResolveRelativeURL, but for references that lead to an absolute file. */
  function Resolve(base: bytes, p: Parsed, relative: bytes, begin: nat, end: nat): Resolution
    requires IsParsedString(base, p) && begin <= end <= |relative| && NeedsNoIdn(base, p, relative, begin, end)
  {
    if p.path.len <= 0 then Resolution(base[..Length(p)], p, false)
    else if begin == end then Resolution(base[..Length(p) - (p.ref.len + 1)], p.(ref := NO_COMPONENT), true)
    else if HasTwoSlashes(relative, begin, end) then
      var c := CanonicalURL(OtherHost(base, p, relative, begin, end));
      Resolution(Text(c.parts), Ranges(c.parts, 0), c.ok)
    else SameHost(base, p, relative, begin, end)
  }

  // ---- The base --------------------------------------------------------------

  /** The parts of a valid URL. */
  ghost predicate IsBase(src: Source, c: Parts) {
    !NeedsIdn(src.host.GetOr([])) && CanonicalURL(src) == Canonical(c, true)
  }

  /** The components of the base, as a source again. */
  function BaseSource(c: Parts): Source {
    Source(Some(c.scheme), c.username, c.password, c.host, c.port, c.path, c.query, c.ref)
  }

  /** The base is printed, and its ranges are those it is printed at. */
  predicate CanResolve(c: Parts, relative: bytes, begin: nat, end: nat) {
    && Splittable(c) && begin <= end <= |relative|
    && IsParsedString(Text(c), Ranges(c, 0)) && NeedsNoIdn(Text(c), Ranges(c, 0), relative, begin, end)
  }

  function Resolved(c: Parts, relative: bytes, begin: nat, end: nat): Resolution
    requires CanResolve(c, relative, begin, end)
  {
    Resolve(Text(c), Ranges(c, 0), relative, begin, end)
  }

  lemma BaseIsParsedString(src: Source, c: Parts)
    requires IsBase(src, c)
    ensures Splittable(c) && IsParsedString(Text(c), Ranges(c, 0)) && SourceAt(Text(c), Ranges(c, 0)) == BaseSource(c)
    ensures Length(Ranges(c, 0)) == |Text(c)|
  {
    ValidIsSplittable(src);
    TextsAtRanges(c, Text(c));
  }

  lemma BaseCanResolve(src: Source, c: Parts, relative: bytes, begin: nat, end: nat)
    requires IsBase(src, c) && begin <= end <= |relative| && !HasTwoSlashes(relative, begin, end)
    ensures CanResolve(c, relative, begin, end)
  {
    BaseIsParsedString(src, c);
  }

  /** What is written behind the front of the base is the text of the base with other parts. */
  lemma BehindIsText(c: Parts, path: bytes, query: Option<bytes>, ref: Option<bytes>, ok: bool)
    requires Splittable(c)
    ensures var d := c.(path := Some(path), query := query, ref := ref);
      Behind(Text(c), Ranges(c, 0), path, query, ref, ok) == Resolution(Text(d), Ranges(d, 0), ok)
  {
    var begin := Ranges(c, 0).path.begin;
    assert Text(c)[..begin] == Head(c) + AuthorityText(c);
    Regroup4(Head(c) + AuthorityText(c), path, WithMark(QUESTION, query), WithMark(HASH, ref));
  }

  /** The path of a base is clean, and so is its directory. */
  lemma BasePathIsClean(src: Source, c: Parts)
    requires IsBase(src, c)
    ensures c.path.Some? && IsCleanPath(c.path.value) && NoNulEscape(c.path.value)
  {
    PathResult(src.path.GetOr([]));
    PathResult([]);
    assert c.path.value == CanonicalPath(src.path.GetOr([])).out;
  }

  lemma DirectoryIsClean(q: bytes)
    requires IsCleanPath(q)
    ensures var a := UpToLastSlash(q); IsCleanPath(a) && a[|a| - 1] == SLASH && (NoNulEscape(q) ==> NoNulEscape(a))
    ensures NoUnescapable(q) ==> NoUnescapable(UpToLastSlash(q))
  {
    var a := UpToLastSlash(q);
    LastIs(q, 0, |q|, Slash, LastOf(q, 0, |q|, Slash));
    assert |a| > 0 && IsOutChar(a[|a| - 1]);
    forall k | 0 <= k < |a| ensures IsOutChar(a[k]) && !DotSegmentAt(a, k) { assert !DotSegmentAt(q, k); }
    if NoUnescapable(q) {
      forall k | 0 <= k < |a| && a[k] == PERCENT ensures !UnescapesAt(a, k) { assert !UnescapesAt(q, k); }
    }
  }

  lemma WithoutRef(c: Parts)
    requires Splittable(c) && Length(Ranges(c, 0)) == |Text(c)|
    ensures var d, p := c.(ref := None), Ranges(c, 0);
      && p.ref.len + 1 <= |Text(c)|
      && Text(c)[..|Text(c)| - (p.ref.len + 1)] == Text(d) && p.(ref := NO_COMPONENT) == Ranges(d, 0)
  {
    var d := c.(ref := None);
    assert Text(c) == Text(d) + WithMark(HASH, c.ref);
  }

  /** The parts of what a reference on the same host is resolved to. */
  function ResolvedParts(c: Parts, relative: bytes, begin: nat, end: nat): Canonical
    requires c.path.Some? && begin <= end <= |relative|
  {
    PathWithin(relative, begin, end);
    var r := PathOf(relative, begin, end);
    var query, ref := CanonicalQuery(r.query.Text(relative)), CanonicalRef(r.ref.Text(relative));
    if r.path.len > 0 then
      var st := ResolvedPath(c.path.value, r.path.Text(relative).value);
      Canonical(c.(path := Some(st.out), query := query, ref := ref), st.ok)
    else
      Canonical(c.(query := if query.Some? then query else c.query, ref := ref), true)
  }

  lemma SameHostText(c: Parts, relative: bytes, begin: nat, end: nat)
    requires Splittable(c) && begin < end <= |relative| && IsParsedString(Text(c), Ranges(c, 0))
    ensures var d := ResolvedParts(c, relative, begin, end);
      SameHost(Text(c), Ranges(c, 0), relative, begin, end) == Resolution(Text(d.parts), Ranges(d.parts, 0), d.ok)
  {
    TextsAtRanges(c, Text(c));
    PathWithin(relative, begin, end);
    var d := ResolvedParts(c, relative, begin, end);
    BehindIsText(c, d.parts.path.value, d.parts.query, d.parts.ref, d.ok);
  }

  /** An empty reference leaves everything but the reference of the base. */
  lemma EmptyReferenceText(src: Source, c: Parts, relative: bytes, begin: nat)
    requires IsBase(src, c) && begin <= |relative| && CanResolve(c, relative, begin, begin)
    ensures var d := c.(ref := None); Resolved(c, relative, begin, begin) == Resolution(Text(d), Ranges(d, 0), true)
  {
    BaseIsParsedString(src, c);
    WithoutRef(c);
  }

  /** A base without a path is returned as it is, whatever the reference, and reported as a failure. */
  lemma NoPathIsReturned(c: Parts, relative: bytes, begin: nat, end: nat)
    requires (c.password.Some? ==> c.username.Some?) && c.path == None && c.query == None && c.ref == None
    requires c.username == None && (c.host.Some? || c.port.Some? || !c.slashes) && begin <= end <= |relative|
    ensures Ranges(c, 0).Within(Text(c)) && IsParsedString(Text(c), Ranges(c, 0))
    ensures NeedsNoIdn(Text(c), Ranges(c, 0), relative, begin, end) ==>
      Resolve(Text(c), Ranges(c, 0), relative, begin, end) == Resolution(Text(c), Ranges(c, 0), false)
  {
    TextsAtRanges(c, Text(c));
    assert Tail(c) == [] && Text(c)[..|Text(c)|] == Text(c);
  }

  // ---- Whatever the reference ------------------------------------------------------

  lemma {:induction false} ScanStaysClean(s: bytes, i: nat, st: State)
    requires i <= |s| && CleanChars(st.out) && |st.out| > 0
    ensures CleanChars(Scan(s, i, st).out)
    decreases |s| - i
  {
    if i < |s| {
      StepStaysClean(s, i, st);
      ScanStaysClean(s, Step(s, i, st).0, Step(s, i, st).1);
    }
  }

  lemma UnescapedStaysClean(s: bytes, next: nat, v: byte, st: State)
    requires next <= |s| && CleanChars(st.out) && PathChar(v).Unescape?
    ensures CleanChars(PushUnescaped(s, next, v, st).out) && |PushUnescaped(s, next, v, st).out| > 0
  {
    assert CleanChars(st.out + [v]);
  }

  lemma StepStaysClean(s: bytes, i: nat, st: State)
    requires i < |s| && CleanChars(st.out) && |st.out| > 0
    ensures CleanChars(Step(s, i, st).1.out) && |Step(s, i, st).1.out| > 0
  {
    if IsDot(s, i) > 0 { DotStaysClean(s, i, st); }
    else if s[i] == PERCENT { PercentStaysClean(s, i, st); }
  }

  lemma DotStaysClean(s: bytes, i: nat, st: State)
    requires i < |s| && CleanChars(st.out) && |st.out| > 0 && IsDot(s, i) > 0
    ensures var next := StepDot(s, i, IsDot(s, i), st).1; CleanChars(next.out) && |next.out| > 0
  {
  }

  lemma PercentStaysClean(s: bytes, i: nat, st: State)
    requires i < |s| && s[i] == PERCENT && CleanChars(st.out)
    ensures CleanChars(StepPercent(s, i, st).1.out) && |StepPercent(s, i, st).1.out| > 0
  {
    if IsEscapeAt(s, i) && PathChar(EscapeValue(s, i)).Unescape? { UnescapedStaysClean(s, i + 3, EscapeValue(s, i), st); }
  }

  lemma AppendedPathShape(a: bytes, path: bytes)
    requires |a| > 0 && a[0] == SLASH && CleanChars(a)
    ensures PathShape(Scan(path, 0, Start(a)).out)
  {
    ScanKeepsRoot(path, 0, Start(a));
    ScanStaysClean(path, 0, Start(a));
    CleanIsPathShape(Scan(path, 0, Start(a)).out);
  }

  lemma ResolvedPathShape(src: Source, c: Parts, path: bytes)
    requires IsBase(src, c) && |path| > 0
    ensures c.path.Some? && PathShape(ResolvedPath(c.path.value, path).out)
  {
    BasePathIsClean(src, c);
    if IsUrlSlash(path[0]) {
      PathKeepsShape(BaseSource(c).(path := Some(path)));
    } else {
      DirectoryIsClean(c.path.value);
      AppendedPathShape(UpToLastSlash(c.path.value), path);
    }
  }

  lemma ResolvedIsSplittable(src: Source, c: Parts, relative: bytes, begin: nat, end: nat)
    requires IsBase(src, c) && begin <= end <= |relative|
    ensures c.path.Some? && var d := ResolvedParts(c, relative, begin, end).parts;
      Head(d) == Head(c) && AuthorityText(d) == AuthorityText(c) && Splittable(d)
  {
    ValidIsSplittable(src);
    PathWithin(relative, begin, end);
    var r := PathOf(relative, begin, end);
    if r.path.len > 0 { ResolvedPathShape(src, c, r.path.Text(relative).value); }
    if r.query.IsValid() { TextIsOfType(r.query.Text(relative).value, 0, Query); }
  }

  /** For every valid base and every reference on the same host, well formed or not: the scheme and the authority of the
      base are kept as they are, the result can be split again, and the ranges reported are the right ones if and only
      if the reference part does not end in a blank. */
  lemma SameHostKeepsAuthority(src: Source, c: Parts, relative: bytes, begin: nat, end: nat)
    requires IsBase(src, c) && begin < end <= |relative| && !HasTwoSlashes(relative, begin, end)
    ensures CanResolve(c, relative, begin, end)
    ensures var r, d := Resolved(c, relative, begin, end), ResolvedParts(c, relative, begin, end).parts;
      && r.text == Text(d) && r.parsed == Ranges(d, 0)
      && Head(d) == Head(c) && AuthorityText(d) == AuthorityText(c) && Splittable(d)
      && (StandardURL(r.text) == r.parsed <==> !EndsInBlank(d.ref))
  {
    BaseIsParsedString(src, c);
    SameHostText(c, relative, begin, end);
    ResolvedIsSplittable(src, c, relative, begin, end);
    ParsesBackIff(ResolvedParts(c, relative, begin, end).parts);
  }
}
