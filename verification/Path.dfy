/**
 url_canon_path.cc: the loop that appends to, rewinds and overwrites the output, against the scanner of PathSpec.
 */
module Path {
  import opened Bytes
  import opened CanonOutputs
  import opened Components
  import opened PathSpec

  method BackUpToPreviousSlash(pathBegin: nat, output: CanonOutput)
    requires pathBegin < |output.text| && output.text[|output.text| - 1] == SLASH
    modifies output
    ensures output.text == old(output.text)[..pathBegin] + BackUp(old(output.text)[pathBegin..])
  {
    ghost var before := output.text;
    ghost var path := before[pathBegin..];
    var i := output.Length() - 1;
    if i == pathBegin {
      assert before == before[..pathBegin] + path;
      return;
    }
    i := i - 1;
    while output.At(i) != SLASH && i > pathBegin
      invariant pathBegin <= i < |before| - 1 && output.text == before
      invariant UpToSlash(path, i - pathBegin) == BackUp(path)
      decreases i
    {
      i := i - 1;
    }
    assert path[..i - pathBegin + 1] == before[pathBegin..i + 1];
    assert before[..i + 1] == before[..pathBegin] + before[pathBegin..i + 1];
    output.SetLength(i + 1);
  }

  /** The same for an output that is known to be a front and a path. */
  method BackUpPath(pathBegin: nat, output: CanonOutput, ghost pre: bytes, ghost out: bytes)
    requires output.text == pre + out && |pre| == pathBegin && |out| > 0 && out[|out| - 1] == SLASH
    modifies output
    ensures output.text == pre + BackUp(out)
  {
    Front(pre, out);
    BackUpToPreviousSlash(pathBegin, output);
  }

  /** lastInvalid is the index of a percent sign seen before, possibly one that is no longer there. */
  method CheckForNestedEscapes(spec: bytes, nextInputIndex: nat, inputLen: nat, lastInvalid: nat, output: CanonOutput)
    requires nextInputIndex <= inputLen <= |spec| && |output.text| > 0 && lastInvalid + 3 >= |output.text|
    modifies output
    ensures var s, before := spec[..inputLen], old(output.text);
      output.text == if NeedsRepair(s, nextInputIndex, lastInvalid, before) then Repaired(before, lastInvalid) else before
  {
    ghost var before := output.text;
    var length := output.Length();
    var lastUnescapedChar := output.At(length - 1);
    var appendNextChar := lastInvalid + 2 == length;
    if appendNextChar {
      if nextInputIndex == inputLen || spec[nextInputIndex] >= 0x80 {
        return;
      }
      output.PushBack(spec[nextInputIndex]);
    }
    if IsEscapeAt(output.text, lastInvalid) {
      if !appendNextChar {
        output.PushBack(output.At(lastInvalid + 1));
      }
      output.Set(lastInvalid + 1, 0x32);
      output.Set(lastInvalid + 2, 0x35);
      output.PushBack(lastUnescapedChar);
      assert output.text == Repaired(before, lastInvalid);
    } else if appendNextChar {
      output.SetLength(length);
    }
  }

  /** The output and the index of the percent sign, as absolute positions, stand for the scanner's variables. */
  ghost predicate Stands(pre: bytes, text: bytes, lastInvalid: Option<nat>, success: bool, st: State) {
    && text == pre + st.out && success == st.ok
    && lastInvalid == (if st.lastInvalid == None then None else Some(|pre| + st.lastInvalid.value))
  }

  lemma RepairedBehind(pre: bytes, out: bytes, p: nat)
    requires p < |out|
    ensures Repaired(pre + out, |pre| + p) == pre + Repaired(out, p)
  {
    assert (pre + out)[..|pre| + p + 1] == pre + out[..p + 1];
    assert (pre + out)[|pre| + p + 1..] == out[p + 1..];
  }

  lemma NeedsRepairBehind(s: bytes, next: nat, pre: bytes, out: bytes, p: nat)
    requires next <= |s|
    ensures NeedsRepair(s, next, |pre| + p, pre + out) == NeedsRepair(s, next, p, out)
  {
  }

  /** An escaped character that is written as itself. */
  method PushUnescapedValue(s: bytes, next: nat, v: byte, lastInvalid: Option<nat>, output: CanonOutput,
                            ghost pre: bytes, ghost st: State)
    requires next <= |s| && Stands(pre, output.text, lastInvalid, st.ok, st)
    modifies output
    ensures Stands(pre, output.text, lastInvalid, st.ok, PushUnescaped(s, next, v, st))
  {
    output.PushBack(v);
    ghost var out := st.out + [v];
    assert output.text == pre + out;
    if lastInvalid.Some? && lastInvalid.value >= output.Length() - 3 {
      ghost var p := st.lastInvalid.value;
      assert s[..|s|] == s;
      NeedsRepairBehind(s, next, pre, out, p);
      CheckForNestedEscapes(s, next, |s|, lastInvalid.value, output);
      if NeedsRepair(s, next, p, out) { RepairedBehind(pre, out, p); }
    }
  }

  /** A dot: part of a name, or a directory that only moves the input position, or one that rewinds the output. */
  method HandleDot(s: bytes, i: nat, dotLen: nat, pathBegin: nat, output: CanonOutput,
                   ghost pre: bytes, ghost st: State) returns (next: nat)
    requires i < |s| && dotLen == IsDot(s, i) > 0 && |pre| == pathBegin && output.text == pre + st.out
    modifies output
    ensures Step(s, i, st).0 == next && output.text == pre + Step(s, i, st).1.out
    ensures Step(s, i, st).1.lastInvalid == st.lastInvalid && Step(s, i, st).1.ok == st.ok
  {
    next := i + dotLen;
    if output.Length() > pathBegin && output.At(output.Length() - 1) == SLASH {
      match ClassifyAfterDot(s, next)
      case NotADirectory =>
        output.PushBack(DOT);
      case DirectoryCur(consumed) =>
        next := next + consumed;
      case DirectoryUp(consumed) =>
        BackUpPath(pathBegin, output, pre, st.out);
        next := next + consumed;
    } else {
      output.PushBack(DOT);
    }
  }

  /** An escape that is resolved or kept, or a percent sign that begins none and is remembered. */
  method HandlePercent(s: bytes, i: nat, last: Option<nat>, ok: bool, output: CanonOutput,
                       ghost pre: bytes, ghost st: State) returns (next: nat, lastInvalid: Option<nat>, success: bool)
    requires i < |s| && s[i] == PERCENT && IsDot(s, i) == 0 && Stands(pre, output.text, last, ok, st)
    modifies output
    ensures Step(s, i, st).0 == next && Stands(pre, output.text, lastInvalid, success, Step(s, i, st).1)
  {
    lastInvalid, success := last, ok;
    if IsEscapeAt(s, i) {
      var v := EscapeValue(s, i);
      if PathChar(v).Unescape? {
        PushUnescapedValue(s, i + 3, v, lastInvalid, output, pre, st);
      } else {
        output.PushBack(PERCENT);
        output.PushBack(s[i + 1]);
        output.PushBack(s[i + 2]);
        if PathChar(v).Invalid? {
          success := false;
        }
      }
      next := i + 3;
    } else {
      lastInvalid := Some(output.Length());
      output.PushBack(PERCENT);
      next := i + 1;
    }
  }

  /** A text that is pushed on both sides. */
  lemma StandsPushed(pre: bytes, text: bytes, lastInvalid: Option<nat>, success: bool, st: State, t: bytes, ok: bool)
    requires Stands(pre, text, lastInvalid, success, st)
    ensures Stands(pre, text + t, lastInvalid, ok, st.Push(t).(ok := ok))
  {
    Regroup(pre, st.out, t);
  }

  /** A character that is written escaped; a NUL is an error too. */
  method HandleEscaped(s: bytes, i: nat, last: Option<nat>, ok: bool, output: CanonOutput,
                       ghost pre: bytes, ghost st: State) returns (success: bool)
    requires i < |s| && IsSpecial(s[i]) && IsDot(s, i) == 0 && s[i] != BACKSLASH && s[i] != PERCENT
    requires Stands(pre, output.text, last, ok, st)
    modifies output
    ensures Step(s, i, st).0 == i + 1 && Stands(pre, output.text, last, success, Step(s, i, st).1)
  {
    var c := s[i];
    success := ok && !PathChar(c).Invalid?;
    StandsPushed(pre, output.text, last, ok, st, Escaped(c), success);
    output.AppendEscapedChar(c);
  }

  /** A character with the SPECIAL flag. */
  method HandleSpecial(s: bytes, i: nat, pathBegin: nat, last: Option<nat>, ok: bool, output: CanonOutput,
                       ghost pre: bytes, ghost st: State) returns (next: nat, lastInvalid: Option<nat>, success: bool)
    requires i < |s| && IsSpecial(s[i]) && |pre| == pathBegin && Stands(pre, output.text, last, ok, st)
    modifies output
    ensures Step(s, i, st).0 == next && Stands(pre, output.text, lastInvalid, success, Step(s, i, st).1)
  {
    var c := s[i];
    lastInvalid, success := last, ok;
    next := i + 1;
    var dotLen := IsDot(s, i);
    if dotLen > 0 {
      next := HandleDot(s, i, dotLen, pathBegin, output, pre, st);
    } else if c == BACKSLASH {
      StandsPushed(pre, output.text, last, ok, st, [SLASH], ok);
      output.PushBack(SLASH);
    } else if c == PERCENT {
      next, lastInvalid, success := HandlePercent(s, i, lastInvalid, success, output, pre, st);
    } else {
      success := HandleEscaped(s, i, last, ok, output, pre, st);
    }
  }

  /** One round of the loop. */
  method HandleCharacter(s: bytes, i: nat, pathBegin: nat, last: Option<nat>, ok: bool, output: CanonOutput,
                         ghost pre: bytes, ghost st: State) returns (next: nat, lastInvalid: Option<nat>, success: bool)
    requires i < |s| && |pre| == pathBegin && Stands(pre, output.text, last, ok, st)
    modifies output
    ensures Step(s, i, st).0 == next && Stands(pre, output.text, lastInvalid, success, Step(s, i, st).1)
  {
    var c := s[i];
    if IsSpecial(c) {
      next, lastInvalid, success := HandleSpecial(s, i, pathBegin, last, ok, output, pre, st);
    } else {
      output.PushBack(c);
      Regroup(pre, st.out, [c]);
      next, lastInvalid, success := i + 1, last, ok;
    }
  }

  /** The path scanner. The text of the component is taken first, so i counts from its beginning. */
  method DoPartialPath(spec: bytes, path: Component, pathBegin: nat, output: CanonOutput) returns (success: bool)
    requires path.Within(spec) && path.IsValid() && pathBegin <= |output.text|
    modifies output
    ensures var r := Scan(path.Text(spec).value, 0, Start(old(output.text)[pathBegin..]));
      output.text == old(output.text)[..pathBegin] + r.out && success == r.ok
  {
    var s := path.Text(spec).value;
    ghost var pre := output.text[..pathBegin];
    ghost var st := Start(output.text[pathBegin..]);
    assert output.text == pre + st.out;
    ghost var final := Scan(s, 0, st);
    var lastInvalid: Option<nat> := None;
    success := true;
    var i := 0;
    while i < |s|
      invariant i <= |s| && Stands(pre, output.text, lastInvalid, success, st)
      invariant Scan(s, i, st) == final
      decreases |s| - i
    {
      ghost var (j, next) := Step(s, i, st);
      i, lastInvalid, success := HandleCharacter(s, i, pathBegin, lastInvalid, success, output, pre, st);
      st := next;
    }
  }

  /** The whole path of a URL. An empty or absent one becomes a slash. */
  method DoPath(spec: bytes, path: Component, output: CanonOutput) returns (success: bool, outPath: Component)
    requires path.Within(spec)
    modifies output
    ensures var r := CanonicalPath(path.Text(spec).GetOr([]));
      && output.text == old(output.text) + r.out && success == r.ok
      && outPath == Component(|old(output.text)|, |r.out|)
  {
    success := true;
    var begin := output.Length();
    ghost var before := output.text;
    if path.len > 0 {
      if !IsUrlSlash(spec[path.begin]) {
        output.PushBack(SLASH);
      }
      assert output.text[..begin] == before;
      assert output.text[begin..] == if IsUrlSlash(spec[path.begin]) then [] else [SLASH];
      success := DoPartialPath(spec, path, begin, output);
    } else {
      output.PushBack(SLASH);
    }
    outPath := Component(begin, output.Length() - begin);
  }
}
