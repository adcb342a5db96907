/**
 The scanner that rewinds its output against the remove_dot_segments routine of RFC 3986, section 5.2.4, which
 moves segments from an input buffer to an output buffer.
 */
module PathDots {
  import opened Bytes
  import opened PathSpec
  import opened PathInvariant
  import opened PathTraces
  import opened PathMended
  import opened PathIdempotence

  // ---- RFC 3986, section 5.2.4 ---------------------------------------------

  /** The length of the first path segment: the initial slash, if any, and all up to the next one. */
  function FirstSegment(input: bytes, i: nat): (n: nat)
    requires 0 < i <= |input|
    ensures i <= n <= |input| && (n < |input| ==> input[n] == SLASH)
    ensures forall k :: i <= k < n ==> input[k] != SLASH
    decreases |input| - i
  {
    if i == |input| || input[i] == SLASH then i else FirstSegment(input, i + 1)
  }

  /** The last segment and its preceding slash, if any, are removed. */
  function RemoveLastSegment(output: bytes): (kept: bytes)
    ensures |kept| <= |output| && (|output| > 0 ==> |kept| < |output|)
  {
    if |output| == 0 then []
    else if output[|output| - 1] == SLASH then output[..|output| - 1]
    else RemoveLastSegment(output[..|output| - 1])
  }

  predicate At(input: bytes, k: nat, c: byte) { k < |input| && input[k] == c }

  /** Which of the steps applies to the input buffer. The two forms of a step are told apart by what is left: a
      dot segment followed by more input, or one that ends it. */
  datatype Rule = A(drop: nat) | B(drop: nat) | BEnd | C | CEnd | D | E

  function RuleOf(input: bytes): (r: Rule)
    requires |input| > 0
    ensures r.A? || r.B? ==> 0 < r.drop <= |input|
    ensures r.C? ==> |input| >= 4
    ensures r.BEnd? || r.CEnd? ==> |input| > 1
  {
    if At(input, 0, DOT) then
      if At(input, 1, DOT) && At(input, 2, SLASH) then A(3)
      else if At(input, 1, SLASH) then A(2)
      else if |input| == 1 || (|input| == 2 && input[1] == DOT) then D
      else E
    else if At(input, 0, SLASH) && At(input, 1, DOT) then
      if At(input, 2, SLASH) then B(2)
      else if |input| == 2 then BEnd
      else if At(input, 2, DOT) && At(input, 3, SLASH) then C
      else if At(input, 2, DOT) && |input| == 3 then CEnd
      else E
    else E
  }

  /** Steps 2A to 2E, repeated until the input buffer is empty. */
  function RemoveDotSegments(input: bytes, output: bytes): bytes
    decreases |input|
  {
    if |input| == 0 then output
    else
      match RuleOf(input)
      case A(n) => RemoveDotSegments(input[n..], output)
      case B(n) => RemoveDotSegments(input[n..], output)
      case BEnd => RemoveDotSegments([SLASH], output)
      case C => RemoveDotSegments(input[3..], RemoveLastSegment(output))
      case CEnd => RemoveDotSegments([SLASH], RemoveLastSegment(output))
      case D => output
      case E =>
        var n := FirstSegment(input, 1);
        RemoveDotSegments(input[n..], output + input[..n])
  }

  // ---- The path before its dot segments are removed -------------------------

  /** A unit of text that comes to a hexadecimal digit: the digit itself, or its escape. */
  predicate HexUnitAt(s: bytes, i: nat) {
    i < |s| && (IsHexChar(s[i]) || (s[i] == PERCENT && IsEscapeAt(s, i) && IsHexChar(EscapeValue(s, i))))
  }

  predicate TwoHexUnitsAt(s: bytes, i: nat) {
    HexUnitAt(s, i) && HexUnitAt(s, if s[i] == PERCENT then i + 3 else i + 1)
  }

  /** How many characters the unit of text at i takes in the input, and what is written for it. A malformed percent sign
      is written as an escape if it would otherwise begin one. */
  function Unit(s: bytes, i: nat): (u: (nat, bytes))
    requires i < |s|
    ensures 0 < u.0 && i + u.0 <= |s| && |u.1| > 0
  {
    var c := s[i];
    if IsDot(s, i) > 0 then (IsDot(s, i), [DOT])
    else if c == BACKSLASH then (1, [SLASH])
    else if c == PERCENT && IsEscapeAt(s, i) then
      (3, if PathChar(EscapeValue(s, i)).Unescape? then [EscapeValue(s, i)] else s[i..i + 3])
    else if c == PERCENT then (1, if TwoHexUnitsAt(s, i + 1) then ESCAPED_PERCENT else [PERCENT])
    else if IsSpecial(c) then (1, Escaped(c))
    else (1, [c])
  }

  const ESCAPED_PERCENT: bytes := [PERCENT, 0x32, 0x35]

  /** Backslashes turned, escapes resolved or written, and dots left where they are. */
  function Normalized(s: bytes, i: nat): bytes
    requires i <= |s|
    decreases |s| - i
  {
    if i == |s| then []
    else
      var (n, text) := Unit(s, i);
      text + Normalized(s, i + n)
  }

  function Rooted(n: bytes): bytes { if |n| > 0 && n[0] == SLASH then n else [SLASH] + n }

  // ---- The simulation ------------------------------------------------------

  predicate NoSlash(s: bytes) { forall k :: 0 <= k < |s| ==> s[k] != SLASH }

  predicate RootedOrEmpty(s: bytes) { |s| > 0 ==> s[0] == SLASH }

  /** Rewinding to the previous slash is removing the last segment. */
  lemma {:induction false} UpToSlashRemoves(out: bytes, i: nat)
    requires i < |out| && out[0] == SLASH
    ensures UpToSlash(out, i) == RemoveLastSegment(out[..i + 1]) + [SLASH]
  {
    var upTo := out[..i + 1];
    assert upTo[..i] == out[..i];
    if out[i] != SLASH && i > 0 {
      UpToSlashRemoves(out, i - 1);
    } else {
      assert upTo == out[..i] + [SLASH];
    }
  }

  lemma BackUpRemoves(done: bytes)
    requires RootedOrEmpty(done)
    ensures BackUp(done + [SLASH]) == RemoveLastSegment(done) + [SLASH]
    ensures RootedOrEmpty(RemoveLastSegment(done))
  {
    var out := done + [SLASH];
    if |done| > 0 {
      UpToSlashRemoves(out, |out| - 2);
      assert out[..|out| - 1] == done;
      assert UpToSlash(out, |out| - 2) <= out;
    }
  }

  lemma PlainSegmentRule(seg: bytes, rest: bytes)
    requires NoSlash(seg) && seg != [DOT] && seg != [DOT, DOT]
    requires |rest| > 0 ==> rest[0] == SLASH
    ensures RuleOf([SLASH] + seg + rest).E?
  {
    var input := [SLASH] + seg + rest;
    assert forall k :: 0 <= k < |seg| ==> input[1 + k] == seg[k];
    assert |rest| > 0 ==> input[1 + |seg|] == SLASH;
    if |seg| == 1 { assert seg == [seg[0]]; }
    if |seg| == 2 { assert seg == [seg[0], seg[1]]; }
  }

  /** Step 2E on a finished segment that is no dot segment. */
  lemma MovesSegment(seg: bytes, rest: bytes, done: bytes)
    requires NoSlash(seg) && seg != [DOT] && seg != [DOT, DOT]
    requires |rest| > 0 ==> rest[0] == SLASH
    ensures RemoveDotSegments([SLASH] + seg + rest, done) == RemoveDotSegments(rest, done + [SLASH] + seg)
  {
    var input := [SLASH] + seg + rest;
    PlainSegmentRule(seg, rest);
    var n := FirstSegment(input, 1);
    assert forall k :: 1 <= k < 1 + |seg| ==> input[k] == seg[k - 1];
    assert |rest| > 0 ==> input[1 + |seg|] == rest[0];
    assert n == 1 + |seg|;
    assert input[..n] == [SLASH] + seg && input[n..] == rest;
    assert done + ([SLASH] + seg) == done + [SLASH] + seg;
  }

  // ---- Repairs that are to come --------------------------------------------

  /** A percent sign in the output will be repaired: with what follows in the input it will have two digits behind it. */
  predicate RepairComes(s: bytes, i: nat, st: State) {
    && st.lastInvalid.Some?
    && var p := st.lastInvalid.value;
    || (p + 1 == |st.out| && TwoHexUnitsAt(s, i))
    || (p + 2 == |st.out| && IsHexChar(st.out[p + 1]) && HexUnitAt(s, i))
  }

  /** The output, as if the repair had been made already. */
  function Settled(s: bytes, i: nat, st: State): bytes {
    if RepairComes(s, i, st) then Repaired(st.out, st.lastInvalid.value) else st.out
  }

  lemma RepairedPush(out: bytes, p: nat, text: bytes)
    requires p < |out|
    ensures Repaired(out + text, p) == Repaired(out, p) + text
  {
    assert (out + text)[p + 1..] == out[p + 1..] + text;
    assert (out + text)[..p + 1] == out[..p + 1];
  }

  lemma NoRepairBehindSlash(s: bytes, st: State)
    requires IsFresh(st) && st.EndsInSlash()
    ensures forall j :: !RepairComes(s, j, st)
  {
  }

  lemma RawDigit(s: bytes, i: nat, st: State)
    requires i < |s| && Inv(s, i, st) && IsFresh(st) && IsHexChar(s[i])
    ensures Settled(s, i + 1, st.Push([s[i]])) == Settled(s, i, st) + [s[i]]
  {
    if st.lastInvalid.Some? { RepairedPush(st.out, st.lastInvalid.value, [s[i]]); }
  }

  lemma ResolvedEscape(s: bytes, i: nat, st: State)
    requires i < |s| && IsFresh(st) && s[i] == PERCENT && IsEscapeAt(s, i)
    requires PathChar(EscapeValue(s, i)).Unescape?
    ensures var v := EscapeValue(s, i);
      Settled(s, i + 3, PushUnescaped(s, i + 3, v, st)) == Settled(s, i, st) + [v]
  {
    if st.lastInvalid.Some? { RepairedPush(st.out, st.lastInvalid.value, [EscapeValue(s, i)]); }
  }

  lemma MalformedPercent(s: bytes, i: nat, st: State)
    requires i < |s| && MalformedIn(s, i)
    ensures var text := if TwoHexUnitsAt(s, i + 1) then ESCAPED_PERCENT else [PERCENT];
      Settled(s, i + 1, st.(out := st.out + [PERCENT], lastInvalid := Some(|st.out|))) == Settled(s, i, st) + text
  {
    var out := st.out + [PERCENT];
    assert out[..|st.out| + 1] == out && out[|st.out| + 1..] == [];
    assert out + [0x32, 0x35] + [] == st.out + ESCAPED_PERCENT;
  }

  /** Any other text is no digit, and leaves the percent sign as it is. */
  lemma OtherText(s: bytes, i: nat, st: State, j: nat, text: bytes)
    requires i < |s| && IsFresh(st) && !HexUnitAt(s, i)
    requires |text| > 0 && !IsHexChar(text[0])
    ensures Settled(s, i, st) == st.out && Settled(s, j, st.Push(text)) == st.out + text
  {
  }

  // ---- The simulation, step by step ----------------------------------------

  /** The scanner at i, and the routine with the rest of the path still in its input buffer: what the scanner has
      written, or will have written with the repair that is to come, is the output buffer, a slash, and the beginning
      of a segment. */
  predicate Related(s: bytes, i: nat, st: State, done: bytes, seg: bytes)
    requires i <= |s|
  {
    && Inv(s, i, st) && IsFresh(st)
    && Settled(s, i, st) == done + [SLASH] + seg && NoSlash(seg) && RootedOrEmpty(done)
  }

  function Remaining(s: bytes, i: nat, done: bytes, seg: bytes): bytes
    requires i <= |s|
  {
    RemoveDotSegments([SLASH] + seg + Normalized(s, i), done)
  }

  /** Text that is neither a slash nor a directory goes to the segment on both sides. */
  lemma TextStep(s: bytes, i: nat, done: bytes, seg: bytes)
    requires i < |s|
    ensures Remaining(s, i, done, seg) == Remaining(s, i + Unit(s, i).0, done, seg + Unit(s, i).1)
  {
    var (n, text) := Unit(s, i);
    assert [SLASH] + seg + (text + Normalized(s, i + n)) == [SLASH] + (seg + text) + Normalized(s, i + n);
  }

  /** The segment under way is not "." or "..", when a slash or the end of the path comes next. */
  lemma SegmentIsPlain(s: bytes, i: nat, st: State, done: bytes, seg: bytes)
    requires i <= |s| && Related(s, i, st, done, seg)
    requires i == |s| || IsUrlSlash(s[i])
    ensures seg != [DOT] && seg != [DOT, DOT]
    ensures Settled(s, i, st) == st.out
  {
    assert !HexUnitAt(s, i);
    var n := |done|;
    assert seg == [DOT] ==> EndsInDot(st.out);
    assert seg == [DOT, DOT] ==> EndsInDotDot(st.out);
  }

  lemma SlashStep(s: bytes, i: nat, st: State, done: bytes, seg: bytes)
    requires i < |s| && Related(s, i, st, done, seg) && IsUrlSlash(s[i])
    ensures Remaining(s, i, done, seg) == Remaining(s, i + 1, done + [SLASH] + seg, [])
  {
    SegmentIsPlain(s, i, st, done, seg);
    SlashMoves(s, i, done, seg);
  }

  lemma SlashMoves(s: bytes, i: nat, done: bytes, seg: bytes)
    requires i < |s| && IsUrlSlash(s[i]) && NoSlash(seg) && seg != [DOT] && seg != [DOT, DOT]
    ensures Remaining(s, i, done, seg) == Remaining(s, i + 1, done + [SLASH] + seg, [])
  {
    NormalizedSlash(s, i);
    MovesSegment(seg, Normalized(s, i), done);
    BeginSegment(Normalized(s, i + 1));
  }

  lemma EndStep(s: bytes, st: State, done: bytes, seg: bytes)
    requires Related(s, |s|, st, done, seg)
    ensures Remaining(s, |s|, done, seg) == st.out
  {
    SegmentIsPlain(s, |s|, st, done, seg);
    MovesSegment(seg, [], done);
    assert [SLASH] + seg + Normalized(s, |s|) == [SLASH] + seg + [];
  }

  lemma RemovesCur(rest: bytes, done: bytes)
    ensures RemoveDotSegments([SLASH] + ([DOT] + ([SLASH] + rest)), done) == RemoveDotSegments([SLASH] + rest, done)
    ensures RemoveDotSegments([SLASH] + [DOT], done) == RemoveDotSegments([SLASH], done)
  {
    var input := [SLASH] + ([DOT] + ([SLASH] + rest));
    assert RuleOf(input) == B(2);
    assert input[2..] == [SLASH] + rest;
    assert RuleOf([SLASH] + [DOT]) == BEnd;
  }

  lemma RemovesUp(rest: bytes, done: bytes)
    ensures RemoveDotSegments([SLASH] + ([DOT] + ([DOT] + ([SLASH] + rest))), done)
         == RemoveDotSegments([SLASH] + rest, RemoveLastSegment(done))
  {
    var input := [SLASH] + ([DOT] + ([DOT] + ([SLASH] + rest)));
    assert RuleOf(input) == C;
    assert input[3..] == [SLASH] + rest;
  }

  lemma RemovesLastUp(done: bytes)
    ensures RemoveDotSegments([SLASH] + ([DOT] + [DOT]), done) == RemoveDotSegments([SLASH], RemoveLastSegment(done))
  {
    assert RuleOf([SLASH] + ([DOT] + [DOT])) == CEnd;
  }

  lemma CurStep(s: bytes, i: nat, done: bytes)
    requires i < |s| && IsDot(s, i) > 0 && ClassifyAfterDot(s, i + IsDot(s, i)).DirectoryCur?
    ensures var j := i + IsDot(s, i) + ClassifyAfterDot(s, i + IsDot(s, i)).consumed;
      Remaining(s, i, done, []) == Remaining(s, j, done, [])
  {
    var after := i + IsDot(s, i);
    assert [SLASH] + [] == [SLASH];
    assert Normalized(s, i) == [DOT] + Normalized(s, after);
    if after == |s| {
      assert [DOT] + [] == [DOT] && [SLASH] + [] == [SLASH];
      RemovesCur([], done);
    } else {
      assert Unit(s, after) == (1, [SLASH]);
      RemovesCur(Normalized(s, after + 1), done);
    }
  }

  lemma NormalizedDot(s: bytes, i: nat)
    requires i < |s| && IsDot(s, i) > 0
    ensures Normalized(s, i) == [DOT] + Normalized(s, i + IsDot(s, i))
  {
  }

  lemma NormalizedSlash(s: bytes, i: nat)
    requires i < |s| && IsUrlSlash(s[i])
    ensures Normalized(s, i) == [SLASH] + Normalized(s, i + 1)
  {
    assert Unit(s, i) == (1, [SLASH]);
  }

  lemma NormalizedHead(s: bytes, i: nat)
    requires i < |s|
    ensures |Normalized(s, i)| > 0
    ensures Normalized(s, i)[0] == SLASH <==> IsUrlSlash(s[i])
    ensures Normalized(s, i)[0] == DOT <==> IsDot(s, i) > 0
  {
  }

  /** The text up to the next slash. */
  function SegmentOf(n: bytes): (seg: bytes)
    ensures |seg| <= |n| && seg == n[..|seg|] && NoSlash(seg) && (|seg| < |n| ==> n[|seg|] == SLASH)
  {
    if |n| == 0 || n[0] == SLASH then [] else [n[0]] + SegmentOf(n[1..])
  }

  lemma SegmentBehind(a: bytes, n: bytes)
    requires NoSlash(a)
    ensures SegmentOf(a + n) == a + SegmentOf(n)
  {
    var seg, rest := SegmentOf(a + n), SegmentOf(n);
    assert forall k :: 0 <= k < |a| ==> (a + n)[k] == a[k];
    assert forall k :: 0 <= k < |n| ==> (a + n)[|a| + k] == n[k];
    assert forall k :: 0 <= k < |a| + |rest| ==> (a + n)[k] != SLASH;
    assert |seg| == |a| + |rest|;
  }

  predicate SegmentEndsAt(s: bytes, i: nat)
    requires i <= |s|
  {
    i == |s| || IsUrlSlash(s[i])
  }

  lemma EmptySegment(s: bytes, i: nat)
    requires i <= |s|
    ensures SegmentOf(Normalized(s, i)) == [] <==> SegmentEndsAt(s, i)
  {
    if i < |s| { NormalizedHead(s, i); }
  }

  lemma SegmentBehindDot(n: bytes)
    ensures SegmentOf([DOT] + n) == [DOT] <==> SegmentOf(n) == []
    ensures SegmentOf([DOT] + n) == [DOT, DOT] <==> SegmentOf(n) == [DOT]
  {
    SegmentBehind([DOT], n);
    var seg := SegmentOf(n);
    assert |[DOT] + seg| == 1 + |seg| && ([DOT] + seg)[1..] == seg;
    assert seg == [DOT] ==> [DOT] + seg == [DOT, DOT];
  }

  lemma SegmentHead(n: bytes)
    ensures SegmentOf(n) == [DOT] ==> |n| > 0 && n[0] == DOT
  {
  }

  lemma OneDot(s: bytes, i: nat)
    requires i <= |s|
    ensures SegmentOf(Normalized(s, i)) == [DOT] <==> i < |s| && IsDot(s, i) > 0 && SegmentEndsAt(s, i + IsDot(s, i))
  {
    SegmentHead(Normalized(s, i));
    if i < |s| {
      NormalizedHead(s, i);
      if IsDot(s, i) > 0 { OneDotAt(s, i); }
    }
  }

  lemma OneDotAt(s: bytes, i: nat)
    requires i < |s| && IsDot(s, i) > 0
    ensures SegmentOf(Normalized(s, i)) == [DOT] <==> SegmentEndsAt(s, i + IsDot(s, i))
    ensures SegmentOf(Normalized(s, i)) == [DOT, DOT] <==> SegmentOf(Normalized(s, i + IsDot(s, i))) == [DOT]
  {
    NormalizedDot(s, i);
    SegmentBehindDot(Normalized(s, i + IsDot(s, i)));
    EmptySegment(s, i + IsDot(s, i));
  }

  /** What the look ahead behind a dot finds: whether the segment that the dot begins is "." or "..". */
  lemma ClassifiedBySegment(s: bytes, i: nat)
    requires i < |s| && IsDot(s, i) > 0
    ensures var d, seg := ClassifyAfterDot(s, i + IsDot(s, i)), SegmentOf(Normalized(s, i));
      (d.DirectoryCur? <==> seg == [DOT]) && (d.DirectoryUp? <==> seg == [DOT, DOT])
  {
    OneDotAt(s, i);
    OneDot(s, i + IsDot(s, i));
  }

  lemma BeginSegment(n: bytes)
    ensures [SLASH] + [] + n == [SLASH] + n
  {
  }

  /** The input buffer of the routine at a final "/..". */
  lemma UpAtEnd(s: bytes, i: nat, after: nat)
    requires i < after < |s| && IsDot(s, i) == after - i && IsDot(s, after) == |s| - after
    ensures [SLASH] + [] + Normalized(s, i) == [SLASH] + ([DOT] + [DOT])
    ensures [SLASH] + [] + Normalized(s, |s|) == [SLASH]
  {
    NormalizedDot(s, i);
    NormalizedDot(s, after);
    BeginSegment(Normalized(s, i));
    assert [DOT] + [] == [DOT] && [SLASH] + [] + [] == [SLASH];
  }

  /** The input buffer of the routine at "/../". */
  lemma UpAtSlash(s: bytes, i: nat, after: nat, end: nat)
    requires i < after < end < |s| && IsDot(s, i) == after - i && IsDot(s, after) == end - after && IsUrlSlash(s[end])
    ensures [SLASH] + [] + Normalized(s, i) == [SLASH] + ([DOT] + ([DOT] + ([SLASH] + Normalized(s, end + 1))))
  {
    NormalizedDot(s, i);
    NormalizedDot(s, after);
    NormalizedSlash(s, end);
    BeginSegment(Normalized(s, i));
  }

  lemma UpStepAtEnd(s: bytes, i: nat, after: nat, done: bytes)
    requires i < after < |s| && IsDot(s, i) == after - i && IsDot(s, after) == |s| - after
    ensures Remaining(s, i, done, []) == Remaining(s, |s|, RemoveLastSegment(done), [])
  {
    UpAtEnd(s, i, after);
    RemovesLastUp(done);
  }

  lemma UpStepAtSlash(s: bytes, i: nat, after: nat, end: nat, done: bytes)
    requires i < after < end < |s| && IsDot(s, i) == after - i && IsDot(s, after) == end - after && IsUrlSlash(s[end])
    ensures Remaining(s, i, done, []) == Remaining(s, end + 1, RemoveLastSegment(done), [])
  {
    UpAtSlash(s, i, after, end);
    BeginSegment(Normalized(s, end + 1));
    RemovesUp(Normalized(s, end + 1), done);
  }

  lemma UpStep(s: bytes, i: nat, done: bytes)
    requires i < |s| && IsDot(s, i) > 0 && ClassifyAfterDot(s, i + IsDot(s, i)).DirectoryUp?
    ensures var j := i + IsDot(s, i) + ClassifyAfterDot(s, i + IsDot(s, i)).consumed;
      Remaining(s, i, done, []) == Remaining(s, j, RemoveLastSegment(done), [])
  {
    var after := i + IsDot(s, i);
    var end := after + IsDot(s, after);
    if end == |s| { UpStepAtEnd(s, i, after, done); } else { UpStepAtSlash(s, i, after, end, done); }
  }

  lemma EndsLikeItsTail(head: bytes, tail: bytes)
    ensures |tail| > 0 ==> (head + tail)[|head + tail| - 1] == tail[|tail| - 1]
  {
  }

  lemma AtSlash(s: bytes, i: nat, st: State, done: bytes, seg: bytes)
    requires i <= |s| && Related(s, i, st, done, seg) && st.EndsInSlash()
    ensures seg == [] && st.out == done + [SLASH]
  {
    NoRepairBehindSlash(s, st);
    EndsLikeItsTail(done + [SLASH], seg);
  }

  lemma DirectoryRelated(s: bytes, i: nat, st: State, done': bytes)
    requires i < |s| && Inv(s, i, st) && IsFresh(st) && st.EndsInSlash()
    requires IsDot(s, i) > 0 && !ClassifyAfterDot(s, i + IsDot(s, i)).NotADirectory?
    requires MendedStep(s, i, st).1.out == done' + [SLASH] && RootedOrEmpty(done')
    ensures Related(s, MendedStep(s, i, st).0, MendedStep(s, i, st).1, done', [])
  {
    MendedStepKeeps(s, i, st);
    NoRepairBehindSlash(s, MendedStep(s, i, st).1);
    Regroup(done', [SLASH], []);
  }

  /** The output buffer behind a dot segment. */
  function DirectoryDone(s: bytes, i: nat, done: bytes): bytes
    requires i < |s|
  {
    if ClassifyAfterDot(s, i + IsDot(s, i)).DirectoryUp? then RemoveLastSegment(done) else done
  }

  /** Right behind a slash, at a dot segment. */
  lemma DirectoryStep(s: bytes, i: nat, st: State, done: bytes, seg: bytes)
    requires i < |s| && Related(s, i, st, done, seg) && st.EndsInSlash()
    requires IsDot(s, i) > 0 && !ClassifyAfterDot(s, i + IsDot(s, i)).NotADirectory?
    ensures Related(s, MendedStep(s, i, st).0, MendedStep(s, i, st).1, DirectoryDone(s, i, done), [])
  {
    AtSlash(s, i, st, done, seg);
    BackUpRemoves(done);
    DirectoryRelated(s, i, st, DirectoryDone(s, i, done));
  }

  lemma DirectoryRemoves(s: bytes, i: nat, st: State, done: bytes, seg: bytes)
    requires i < |s| && Related(s, i, st, done, seg) && st.EndsInSlash()
    requires IsDot(s, i) > 0 && !ClassifyAfterDot(s, i + IsDot(s, i)).NotADirectory?
    ensures Remaining(s, i, done, seg) == Remaining(s, MendedStep(s, i, st).0, DirectoryDone(s, i, done), [])
  {
    assert seg == [] by { AtSlash(s, i, st, done, seg); }
    DotRemoves(s, i, done);
  }

  lemma DotRemoves(s: bytes, i: nat, done: bytes)
    requires i < |s| && IsDot(s, i) > 0 && !ClassifyAfterDot(s, i + IsDot(s, i)).NotADirectory?
    ensures var after := i + IsDot(s, i);
      Remaining(s, i, done, []) == Remaining(s, after + ClassifyAfterDot(s, after).consumed, DirectoryDone(s, i, done), [])
  {
    if ClassifyAfterDot(s, i + IsDot(s, i)).DirectoryCur? { CurStep(s, i, done); } else { UpStep(s, i, done); }
  }

  lemma EscapeStep(s: bytes, i: nat, st: State)
    requires i < |s| && s[i] == PERCENT && IsEscapeAt(s, i) && IsDot(s, i) == 0 && IsFresh(st)
    ensures var (n, text) := Unit(s, i);
      var (j, next) := MendedStep(s, i, st);
      j == i + n && Settled(s, j, next) == Settled(s, i, st) + text && NoSlash(text)
  {
    if PathChar(EscapeValue(s, i)).Unescape? {
      ResolvedEscape(s, i, st);
    } else {
      KeptText(s, i);
      OtherText(s, i, st, i + 3, [PERCENT, s[i + 1], s[i + 2]]);
    }
  }

  lemma KeptText(s: bytes, i: nat)
    requires i < |s| && s[i] == PERCENT && IsEscapeAt(s, i)
    ensures s[i..i + 3] == [PERCENT, s[i + 1], s[i + 2]] && NoSlash(s[i..i + 3])
  {
    assert !IsHexChar(SLASH);
  }

  lemma CharacterStep(s: bytes, i: nat, st: State)
    requires i < |s| && Inv(s, i, st) && IsFresh(st) && IsDot(s, i) == 0 && s[i] != PERCENT && !IsUrlSlash(s[i])
    ensures var (n, text) := Unit(s, i);
      var (j, next) := MendedStep(s, i, st);
      j == i + n && Settled(s, j, next) == Settled(s, i, st) + text && NoSlash(text)
  {
    if IsHexChar(s[i]) {
      RawDigit(s, i, st);
    } else {
      CharacterText(s, i);
      OtherText(s, i, st, i + 1, Unit(s, i).1);
    }
  }

  lemma CharacterText(s: bytes, i: nat)
    requires i < |s| && IsDot(s, i) == 0 && s[i] != PERCENT && !IsUrlSlash(s[i])
    ensures Unit(s, i).0 == 1 && NoSlash(Unit(s, i).1) && (!IsHexChar(s[i]) ==> !IsHexChar(Unit(s, i).1[0]))
    ensures forall st: State :: MendedStep(s, i, st).0 == i + 1 && Step(s, i, st).1.out == st.out + Unit(s, i).1
  {
  }

  /** A character of some segment, or more than one for an escape. */
  lemma PlainStep(s: bytes, i: nat, st: State)
    requires i < |s| && Inv(s, i, st) && IsFresh(st) && !IsUrlSlash(s[i])
    requires IsDot(s, i) > 0 && st.EndsInSlash() ==> ClassifyAfterDot(s, i + IsDot(s, i)).NotADirectory?
    ensures var (n, text) := Unit(s, i);
      var (j, next) := MendedStep(s, i, st);
      j == i + n && Settled(s, j, next) == Settled(s, i, st) + text && NoSlash(text)
  {
    if IsDot(s, i) > 0 { OtherText(s, i, st, i + IsDot(s, i), [DOT]); }
    else if s[i] != PERCENT { CharacterStep(s, i, st); }
    else if IsEscapeAt(s, i) { EscapeStep(s, i, st); }
    else { MalformedPercent(s, i, st); }
  }

  lemma SlashRelated(s: bytes, i: nat, st: State, done: bytes, seg: bytes)
    requires i < |s| && Related(s, i, st, done, seg) && IsUrlSlash(s[i])
    ensures MendedStep(s, i, st).0 == i + 1 && Related(s, i + 1, MendedStep(s, i, st).1, done + [SLASH] + seg, [])
  {
    var next := MendedStep(s, i, st).1;
    MendedStepKeeps(s, i, st);
    SegmentIsPlain(s, i, st, done, seg);
    NoRepairBehindSlash(s, next);
    assert next.out == done + [SLASH] + seg + [SLASH];
    Regroup(done + [SLASH] + seg, [SLASH], []);
  }

  lemma NoSlashOfParts(a: bytes, b: bytes)
    requires NoSlash(a) && NoSlash(b)
    ensures NoSlash(a + b)
  {
  }

  lemma PlainRelated(s: bytes, i: nat, st: State, done: bytes, seg: bytes)
    requires i < |s| && Related(s, i, st, done, seg) && !IsUrlSlash(s[i])
    requires IsDot(s, i) > 0 && st.EndsInSlash() ==> ClassifyAfterDot(s, i + IsDot(s, i)).NotADirectory?
    ensures MendedStep(s, i, st).0 == i + Unit(s, i).0
    ensures Related(s, i + Unit(s, i).0, MendedStep(s, i, st).1, done, seg + Unit(s, i).1)
  {
    var text := Unit(s, i).1;
    MendedStepKeeps(s, i, st);
    PlainStep(s, i, st);
    Regroup(done + [SLASH], seg, text);
    NoSlashOfParts(seg, text);
  }

  /** A dot segment begins here. */
  predicate AtDirectory(s: bytes, i: nat, st: State)
    requires i < |s|
  {
    IsDot(s, i) > 0 && st.EndsInSlash() && !ClassifyAfterDot(s, i + IsDot(s, i)).NotADirectory?
  }

  /** The output buffer and the segment under way after a round of the scanner. */
  function NextDone(s: bytes, i: nat, st: State, done: bytes, seg: bytes): bytes
    requires i < |s|
  {
    if IsUrlSlash(s[i]) then done + [SLASH] + seg else if AtDirectory(s, i, st) then DirectoryDone(s, i, done) else done
  }

  function NextSegment(s: bytes, i: nat, st: State, seg: bytes): bytes
    requires i < |s|
  {
    if IsUrlSlash(s[i]) || AtDirectory(s, i, st) then [] else seg + Unit(s, i).1
  }

  lemma StepRelated(s: bytes, i: nat, st: State, done: bytes, seg: bytes)
    requires i < |s| && Related(s, i, st, done, seg)
    ensures Related(s, MendedStep(s, i, st).0, MendedStep(s, i, st).1, NextDone(s, i, st, done, seg), NextSegment(s, i, st, seg))
  {
    if IsUrlSlash(s[i]) { SlashRelated(s, i, st, done, seg); }
    else if AtDirectory(s, i, st) { DirectoryStep(s, i, st, done, seg); }
    else { PlainRelated(s, i, st, done, seg); }
  }

  lemma StepRemains(s: bytes, i: nat, st: State, done: bytes, seg: bytes)
    requires i < |s| && Related(s, i, st, done, seg)
    ensures Remaining(s, i, done, seg)
         == Remaining(s, MendedStep(s, i, st).0, NextDone(s, i, st, done, seg), NextSegment(s, i, st, seg))
  {
    if IsUrlSlash(s[i]) {
      SlashStep(s, i, st, done, seg);
    } else if AtDirectory(s, i, st) {
      DirectoryRemoves(s, i, st, done, seg);
    } else {
      PlainStep(s, i, st);
      TextStep(s, i, done, seg);
    }
  }

  lemma {:induction false} ScanRemoves(s: bytes, i: nat, st: State, done: bytes, seg: bytes)
    requires i <= |s| && Related(s, i, st, done, seg)
    ensures MendedScan(s, i, st).out == Remaining(s, i, done, seg)
    decreases |s| - i
  {
    if i == |s| {
      EndStep(s, st, done, seg);
    } else {
      StepRelated(s, i, st, done, seg);
      StepRemains(s, i, st, done, seg);
      ScanRemoves(s, MendedStep(s, i, st).0, MendedStep(s, i, st).1, NextDone(s, i, st, done, seg), NextSegment(s, i, st, seg));
    }
  }

  /** What the standard makes of the path with its characters normalized. */
  function DotsRemoved(s: bytes): bytes { RemoveDotSegments(Rooted(Normalized(s, 0)), []) }

  /** For every path: the mended scanner removes the dot segments of the path with its characters normalized. */
  lemma MendedIsRemoveDotSegments(s: bytes)
    ensures MendedPath(s).out == DotsRemoved(s)
  {
    var i := if |s| > 0 && IsUrlSlash(s[0]) then 1 else 0;
    RootIsTraced(s);
    RootedFromSlash(s, i);
    assert [] + [SLASH] + [] == [SLASH];
    ScanRemoves(s, i, Start([SLASH]), [], []);
  }

  /** For every path: canonicalizing it is removing the dot segments of the path with its characters normalized if and
      only if no stale repair is kept. Otherwise the characters of the stale repairs are put in. */
  lemma PathIsRemoveDotSegmentsIff(s: bytes)
    ensures CanonicalPath(s).out == DotsRemoved(s) <==> !KeepsStaleRepair(s)
    ensures PutInto(CanonicalPath(s).out, DotsRemoved(s))
  {
    MendedIsRemoveDotSegments(s);
    OutputIsMendedIff(s);
    OutputIsMendedAndMore(s);
  }

  /** So whenever no ".." comes behind a malformed percent sign. */
  lemma PathIsRemoveDotSegments(s: bytes)
    requires NoUpAfterMalformed(s)
    ensures !KeepsStaleRepair(s) && CanonicalPath(s).out == DotsRemoved(s)
  {
    PathIsMended(s);
    MendedIsRemoveDotSegments(s);
    PathIsRemoveDotSegmentsIff(s);
  }

  lemma RootedFromSlash(s: bytes, i: nat)
    requires i == if |s| > 0 && IsUrlSlash(s[0]) then 1 else 0
    ensures Rooted(Normalized(s, 0)) == [SLASH] + [] + Normalized(s, i)
  {
    BeginSegment(Normalized(s, i));
    if |s| > 0 && IsUrlSlash(s[0]) { NormalizedSlash(s, 0); } else if |s| > 0 { NormalizedHead(s, 0); }
  }

  // ---- A path for which it fails -------------------------------------------------

  /** "/%/../x%411" */
  const STALE_TEXT: bytes := [SLASH, PERCENT, SLASH, DOT, DOT, SLASH, 0x78, PERCENT, 0x34, 0x31, 0x31]

  lemma StaleTextRewind(st: State)
    requires st == State([SLASH, PERCENT, SLASH], Some(1), true, {})
    ensures Scan(STALE_TEXT, 3, st) == Scan(STALE_TEXT, 6, st.(out := [SLASH]))
  {
    assert ClassifyAfterDot(STALE_TEXT, 4) == DirectoryUp(2);
    assert BackUp(st.out) == UpToSlash(st.out, 1) == UpToSlash(st.out, 0) == [SLASH];
    assert st.Rewind().torn == {};
    assert Step(STALE_TEXT, 3, st) == (6, st.(out := [SLASH]));
  }

  lemma StaleTextHead()
    ensures CanonicalPath(STALE_TEXT) == Scan(STALE_TEXT, 7, State([SLASH, 0x78], Some(1), true, {}))
  {
    var s, st := STALE_TEXT, State([SLASH, PERCENT], Some(1), true, {});
    LiteralStep(s, 0, Start([]), [SLASH]);
    assert [SLASH] + [PERCENT] == st.out;
    assert Step(s, 1, Start([SLASH])) == (2, st);
    LiteralStep(s, 2, st, [SLASH, PERCENT, SLASH]);
    StaleTextRewind(st.(out := [SLASH, PERCENT, SLASH]));
    LiteralStep(s, 6, st.(out := [SLASH]), [SLASH, 0x78]);
  }

  lemma StaleTextRepaired(st: State)
    requires st == State([SLASH, 0x78], Some(1), true, {})
    ensures Scan(STALE_TEXT, 7, st).out == [SLASH, 0x78, 0x32, 0x35, 0x41, 0x31]
  {
    var s, longer, repaired := STALE_TEXT, [SLASH, 0x78, 0x41], [SLASH, 0x78, 0x32, 0x35, 0x41];
    assert st.out + [0x41] == longer;
    assert Repaired(longer, 1) == repaired;
    assert EscapeValue(s, 7) == 0x41;
    assert Step(s, 7, st) == (10, st.(out := repaired));
    LiteralStep(s, 10, st.(out := repaired), [SLASH, 0x78, 0x32, 0x35, 0x41, 0x31]);
  }

  lemma MendedLiteralStep(s: bytes, i: nat, st: State, out: bytes)
    requires i < |s| && !IsSpecial(s[i]) && out == st.out + [s[i]] && IsFresh(st)
    ensures MendedScan(s, i, st) == MendedScan(s, i + 1, st.(out := out))
  {
    assert MendedStep(s, i, st) == (i + 1, st.(out := out));
  }

  lemma StaleTextMendedHead()
    ensures MendedPath(STALE_TEXT) == MendedScan(STALE_TEXT, 6, Start([SLASH]))
  {
    var s, st := STALE_TEXT, State([SLASH, PERCENT], Some(1), true, {});
    assert [SLASH] + [PERCENT] == st.out;
    assert MendedStep(s, 1, Start([SLASH])) == (2, st);
    var st3 := st.(out := [SLASH, PERCENT, SLASH]);
    MendedLiteralStep(s, 2, st, st3.out);
    StaleTextForgotten(st3);
  }

  lemma StaleTextForgotten(st: State)
    requires st == State([SLASH, PERCENT, SLASH], Some(1), true, {})
    ensures MendedScan(STALE_TEXT, 3, st) == MendedScan(STALE_TEXT, 6, Start([SLASH]))
  {
    assert ClassifyAfterDot(STALE_TEXT, 4) == DirectoryUp(2);
    assert BackUp(st.out) == UpToSlash(st.out, 1) == UpToSlash(st.out, 0) == [SLASH];
    assert st.Rewind().torn == {};
    assert MendedStep(STALE_TEXT, 3, st) == (6, Start([SLASH]));
  }

  lemma StaleTextMended()
    ensures MendedPath(STALE_TEXT).out == [SLASH, 0x78, 0x41, 0x31]
  {
    var s := STALE_TEXT;
    StaleTextMendedHead();
    MendedLiteralStep(s, 6, Start([SLASH]), [SLASH, 0x78]);
    assert [SLASH, 0x78] + [0x41] == [SLASH, 0x78, 0x41] && EscapeValue(s, 7) == 0x41;
    assert MendedStep(s, 7, Start([SLASH, 0x78])) == (10, Start([SLASH, 0x78, 0x41]));
    MendedLiteralStep(s, 10, Start([SLASH, 0x78, 0x41]), [SLASH, 0x78, 0x41, 0x31]);
  }

  /** "/%/../x%411" becomes "/x25A1", where the standard has "/xA1": the repair puts its two characters into plain text,
      where there is no percent sign any more. A second run changes nothing. */
  lemma StalePercentCorruptsText()
    ensures CanonicalPath(STALE_TEXT).out == [SLASH, 0x78, 0x32, 0x35, 0x41, 0x31]
    ensures DotsRemoved(STALE_TEXT) == [SLASH, 0x78, 0x41, 0x31]
    ensures KeepsStaleRepair(STALE_TEXT) && !LeavesTornEscape(STALE_TEXT)
  {
    StaleTextHead();
    StaleTextRepaired(State([SLASH, 0x78], Some(1), true, {}));
    StaleTextMended();
    MendedIsRemoveDotSegments(STALE_TEXT);
    PathIsRemoveDotSegmentsIff(STALE_TEXT);
    CanonicalIsFixed(CanonicalPath(STALE_TEXT).out);
    IdempotentIff(STALE_TEXT);
  }

}
