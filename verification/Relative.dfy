/** url_canon_relative.cc: parts of the base are copied, parts of the reference canonicalized, against RelativeSpec. */
module Relative {
  import opened Bytes
  import opened CanonOutputs
  import opened Components
  import opened EtcSpec
  import opened Etc
  import opened Path
  import opened ParseSpec
  import opened Parse
  import opened UrlText
  import opened StandardUrlSpec
  import opened StandardUrl
  import opened RelativeSpec

  /** Up to and including the last slash of the range. */
  method CopyToLastSlash(spec: bytes, begin: nat, end: nat, output: CanonOutput)
    requires begin <= end <= |spec|
    modifies output
    ensures output.text == old(output.text) + UpToLastSlash(spec[begin..end])
  {
    ghost var s := spec[begin..end];
    var i: int := end - 1;
    while i >= begin && !IsUrlSlash(spec[i])
      invariant begin - 1 <= i < end && LastOf(s, 0, i + 1 - begin, Slash) == LastOf(s, 0, |s|, Slash)
    {
      i := i - 1;
    }
    if i < begin {
      assert output.text + [] == output.text;
      return;
    }
    PushEach(spec[begin..i + 1], output);
    assert s[..i + 1 - begin] == spec[begin..i + 1];
  }

  /** A component that does not change. */
  method CopyOneComponent(source: bytes, component: Component, output: CanonOutput) returns (outComponent: Component)
    requires component.Within(source)
    modifies output
    ensures output.text == old(output.text) + component.Text(source).GetOr([])
    ensures outComponent == RangeOf(component.Text(source), |old(output.text)|)
  {
    if component.len < 0 {
      assert output.text + [] == output.text;
      return NO_COMPONENT;
    }
    var begin := output.Length();
    PushEach(source[component.begin..component.End()], output);
    return Component(begin, output.Length() - begin);
  }

  /** The new path, behind the front of the base. */
  method ResolvePath(base: bytes, basePath: Component, relative: bytes, path: Component, output: CanonOutput)
    returns (success: bool, outPath: Component)
    requires basePath.Within(base) && basePath.IsValid() && path.Within(relative) && path.len > 0
    modifies output
    ensures var st := ResolvedPath(basePath.Text(base).value, path.Text(relative).value);
      && output.text == old(output.text) + st.out && success == st.ok
      && outPath == Component(|old(output.text)|, |st.out|)
  {
    if IsUrlSlash(relative[path.begin]) {
      success, outPath := DoPath(relative, path, output);
    } else {
      ghost var before := output.text;
      var pathBegin := output.Length();
      CopyToLastSlash(base, basePath.begin, basePath.End(), output);
      assert output.text[..pathBegin] == before;
      assert output.text[pathBegin..] == UpToLastSlash(basePath.Text(base).value);
      success := DoPartialPath(relative, path, pathBegin, output);
      outPath := MakeRange(pathBegin, output.Length());
    }
  }

  /** The query of the base, with its question mark. */
  method CopyQuery(base: bytes, query: Component, output: CanonOutput) returns (outQuery: Component)
    requires query.Within(base)
    modifies output
    ensures output.text == old(output.text) + WithMark(QUESTION, query.Text(base))
    ensures outQuery == RangeOf(query.Text(base), |old(output.text)| + 1)
  {
    if query.IsValid() {
      output.PushBack(QUESTION);
    }
    outQuery := CopyOneComponent(base, query, output);
    assert query.IsValid() ==> old(output.text) + ([QUESTION] + query.Text(base).value) == output.text;
  }

  /** What is limited to ASCII here, and the host that may not be left to the IDN conversion. */
  predicate IsModelledReference(base: bytes, p: Parsed, relative: bytes, begin: nat, end: nat)
    requires p.Within(base) && begin <= end <= |relative|
  {
    if HasTwoSlashes(relative, begin, end) then IsModelled(OtherHost(base, p, relative, begin, end))
    else
      PathWithin(relative, begin, end);
      var r := PathOf(relative, begin, end);
      AllAscii(r.query.Text(relative).GetOr([])) && AllAscii(r.ref.Text(relative).GetOr([]))
  }

  predicate RangesWithin(r: PathParts, s: bytes) { r.path.Within(s) && r.query.Within(s) && r.ref.Within(s) }

  /** The path is replaced or modified, the query and the reference come from the relative URL. */
  method ReplacePath(base: bytes, p: Parsed, relative: bytes, r: PathParts, output: CanonOutput)
    returns (success: bool, outParsed: Parsed)
    requires p.Within(base) && p.path.len > 0 && RangesWithin(r, relative) && r.path.len > 0
    requires AllAscii(r.query.Text(relative).GetOr([])) && AllAscii(r.ref.Text(relative).GetOr([]))
    requires output.text == base[..p.path.begin]
    modifies output
    ensures var st := ResolvedPath(p.path.Text(base).value, r.path.Text(relative).value);
      Resolution(output.text, outParsed, success) == Behind(
        base, p, st.out, CanonicalQuery(r.query.Text(relative)), CanonicalRef(r.ref.Text(relative)), st.ok)
  {
    var path;
    success, path := ResolvePath(base, p.path, relative, r.path, output);
    var query := DoCanonicalizeQuery(r.query.Text(relative), output);
    var ref := DoCanonicalizeRef(r.ref.Text(relative), output);
    outParsed := p.(path := path, query := query, ref := ref);
  }

  /** The path is unchanged, and so is the query if there is just a reference. */
  method KeepPath(base: bytes, p: Parsed, relative: bytes, r: PathParts, output: CanonOutput) returns (outParsed: Parsed)
    requires p.Within(base) && p.path.len > 0 && RangesWithin(r, relative)
    requires AllAscii(r.query.Text(relative).GetOr([])) && AllAscii(r.ref.Text(relative).GetOr([]))
    requires output.text == base[..p.path.begin]
    modifies output
    ensures var query := r.query.Text(relative);
      Resolution(output.text, outParsed, true) == Behind(
        base, p, p.path.Text(base).value, if query.Some? then CanonicalQuery(query) else p.query.Text(base),
        CanonicalRef(r.ref.Text(relative)), true)
  {
    var path := CopyOneComponent(base, p.path, output);
    var query;
    if r.query.IsValid() {
      query := DoCanonicalizeQuery(r.query.Text(relative), output);
    } else {
      query := CopyQuery(base, p.query, output);
    }
    var ref := DoCanonicalizeRef(r.ref.Text(relative), output);
    outParsed := p.(path := path, query := query, ref := ref);
  }

  /** The reference has a path, a query or a fragment, and the authority of the base is kept. */
  method DoResolveRelativePath(base: bytes, p: Parsed, relative: bytes, begin: nat, end: nat, output: CanonOutput)
    returns (success: bool, outParsed: Parsed)
    requires p.Within(base) && p.path.len > 0 && begin < end <= |relative| && !HasTwoSlashes(relative, begin, end)
    requires IsModelledReference(base, p, relative, begin, end) && output.text == []
    modifies output
    ensures Resolution(output.text, outParsed, success) == SameHost(base, p, relative, begin, end)
  {
    PathWithin(relative, begin, end);
    var r := ParsePath(relative, MakeRange(begin, end));
    output.Append(base[..p.path.begin]);
    assert output.text == base[..p.path.begin];
    if r.path.len > 0 {
      success, outParsed := ReplacePath(base, p, relative, r, output);
    } else {
      outParsed := KeepPath(base, p, relative, r, output);
      success := true;
    }
  }

  /** Only the scheme of the base is kept. The rest is what a parser finds behind a scheme. */
  method DoResolveRelativeHost(base: bytes, p: Parsed, relative: bytes, begin: nat, end: nat, output: CanonOutput)
    returns (success: bool, outParsed: Parsed)
    requires p.Within(base) && begin <= end <= |relative| && HasTwoSlashes(relative, begin, end)
    requires IsModelledReference(base, p, relative, begin, end)
    modifies output
    ensures var c := CanonicalURL(OtherHost(base, p, relative, begin, end));
      && output.text == old(output.text) + Text(c.parts) && success == c.ok
      && outParsed == Ranges(c.parts, |old(output.text)|)
  {
    var text := relative[..end];
    var r := ParseAfterScheme(text, begin);
    AfterSchemeWithin(text, begin);
    var source := SourceAt(text, r).(scheme := p.scheme.Text(base));
    success, outParsed := DoCanonicalizeStandardURL(source, output);
  }

  /** References that lead to an absolute file are not modelled. */
  method DoResolveRelativeURL(base: bytes, p: Parsed, relative: bytes, begin: nat, end: nat, output: CanonOutput)
    returns (success: bool, outParsed: Parsed)
    requires IsParsedString(base, p) && begin <= end <= |relative|
    requires IsModelledReference(base, p, relative, begin, end) && output.text == []
    modifies output
    ensures NeedsNoIdn(base, p, relative, begin, end)
    ensures Resolution(output.text, outParsed, success) == Resolve(base, p, relative, begin, end)
  {
    outParsed := p;
    if p.path.len <= 0 {
      PushEach(base[..Length(p)], output);
      return false, outParsed;
    }
    if begin == end {
      var baseLen := Length(p) - (p.ref.len + 1);
      outParsed := outParsed.(ref := NO_COMPONENT);
      output.Append(base[..baseLen]);
      return true, outParsed;
    }
    var numSlashes := CountConsecutiveSlashes(relative[..end], begin);
    if numSlashes >= 2 {
      success, outParsed := DoResolveRelativeHost(base, p, relative, begin, end, output);
    } else {
      success, outParsed := DoResolveRelativePath(base, p, relative, begin, end, output);
    }
  }
}
