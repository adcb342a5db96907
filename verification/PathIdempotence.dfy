/**
 A second canonicalization of a path. It changes nothing exactly when the first one left no torn escape
 behind; if the first one succeeds, the second one does too.
 */
module PathIdempotence {
  import opened Bytes
  import opened PathSpec
  import opened PathInvariant
  import opened PathTraces
  import opened PathMended

  /** A text the scanner leaves as it is. */
  predicate IsCanonical(q: bytes) {
    && |q| > 0 && q[0] == SLASH && CleanChars(q) && NoDotSegment(q)
    && forall k :: 0 <= k < |q| && q[k] == PERCENT ==> !UnescapesAt(q, k)
  }

  /** The scanner would replace the escape at k by the character it stands for. */
  predicate UnescapesAt(q: bytes, k: nat) { IsEscapeAt(q, k) && !IsKeptValue(EscapeValue(q, k), false) }

  predicate NoNulEscape(q: bytes) {
    forall k :: 0 <= k < |q| && q[k] == PERCENT && IsEscapeAt(q, k) ==> EscapeValue(q, k) != 0
  }

  /** Every percent sign of the path begins an escape. */
  predicate NoMalformedPercent(s: bytes) {
    forall k :: 0 <= k < |s| && s[k] == PERCENT ==> IsEscapeAt(s, k)
  }

  /** Nothing in the text is an escape that the scanner would replace. */
  predicate NoUnescapable(q: bytes) { forall k :: 0 <= k < |q| && q[k] == PERCENT ==> !UnescapesAt(q, k) }

  /** What every canonicalized path is, stable or not. */
  predicate IsCleanPath(q: bytes) {
    |q| > 0 && q[0] == SLASH && CleanChars(q) && NoDotSegment(q) && NoEscapedDot(q)
  }

  /** Read off the input: an escape is torn by a repair, and not removed by a later "..". */
  predicate LeavesTornEscape(s: bytes) { TraceOf(s).torn != {} }

  /** Read off the input: the escape of a NUL is written, and not removed by a later ".." or a repair. */
  predicate LeavesNulEscape(s: bytes) { TraceOf(s).nuls != {} }

  // ---- The first run -------------------------------------------------------

  /** What holds of the result for every input, well formed or not. */
  lemma PathResult(s: bytes)
    ensures var r := CanonicalPath(s);
      && Inv([], 0, r) && NoDotSegment(r.out) && IsCleanPath(r.out)
      && (forall k :: 0 <= k < |r.out| && r.out[k] == PERCENT ==> (UnescapesAt(r.out, k) <==> k in r.torn))
      && (r.ok ==> NoNulEscape(r.out))
  {
    var r := CanonicalPath(s);
    if |s| > 0 {
      var i := FirstSlash(s);
      ScanKeeps(s, i, Start([SLASH]));
      assert Inv(s, |s|, r);
    }
    forall k | 0 <= k < |r.out| && r.out[k] == PERCENT
      ensures UnescapesAt(r.out, k) <==> k in r.torn
      ensures r.ok && IsEscapeAt(r.out, k) ==> EscapeValue(r.out, k) != 0
    {
      assert PercentOk(r.out, k, r.lastInvalid, r.torn, r.ok);
      if k in r.torn { assert TornAt(r.out, k); }
    }
  }

  // ---- The second run ------------------------------------------------------

  /** Where q has no dot segment, the scanner standing right behind a slash sees none. */
  lemma SeesNoDotSegment(q: bytes, i: nat)
    requires 0 < i < |q| && CleanChars(q) && NoDotSegment(q)
    requires forall k :: 0 <= k < |q| && q[k] == PERCENT && IsEscapeAt(q, k) ==> EscapeValue(q, k) != DOT
    requires q[i - 1] == SLASH && q[i] == DOT
    ensures ClassifyAfterDot(q, i + 1).NotADirectory?
  {
    assert !DotSegmentAt(q, i - 1);
    if i + 1 < |q| {
      assert IsOutChar(q[i + 1]);
      if i + 2 < |q| { assert IsOutChar(q[i + 2]); }
    }
  }

  predicate NoEscapedDot(q: bytes) {
    forall k :: 0 <= k < |q| && q[k] == PERCENT && IsEscapeAt(q, k) ==> EscapeValue(q, k) != DOT
  }

  lemma IdentityStep(q: bytes, i: nat, st: State)
    requires i < |q| && q[0] == SLASH && CleanChars(q) && NoDotSegment(q) && NoEscapedDot(q)
    requires st.out == q[..i] && (q[i] == PERCENT ==> !UnescapesAt(q, i))
    ensures var (j, next) := Step(q, i, st);
      next.out == q[..j] && forall k :: i < k < j ==> q[k] != PERCENT
  {
    assert IsOutChar(q[i]);
    var (j, next) := Step(q, i, st);
    if q[i] == DOT {
      if st.EndsInSlash() { SeesNoDotSegment(q, i); }
    } else if q[i] == PERCENT && IsEscapeAt(q, i) {
      assert q[..i + 3] == q[..i] + [q[i], q[i + 1], q[i + 2]];
    }
  }

  /** Up to a percent sign, or the end, the second run copies its input. */
  lemma {:induction false} IdentityUpTo(q: bytes, i: nat, st: State, end: nat) returns (mid: State)
    requires i <= end <= |q| && |q| > 0 && q[0] == SLASH && CleanChars(q) && NoDotSegment(q) && NoEscapedDot(q)
    requires end < |q| ==> q[end] == PERCENT
    requires st.out == q[..i]
    requires forall k :: i <= k < end && q[k] == PERCENT ==> !UnescapesAt(q, k)
    ensures Scan(q, i, st) == Scan(q, end, mid) && mid.out == q[..end]
    decreases end - i
  {
    if i == end {
      mid := st;
    } else {
      IdentityStep(q, i, st);
      var (j, next) := Step(q, i, st);
      mid := IdentityUpTo(q, j, next, end);
    }
  }

  /** CanonicalPath of a text that begins with a slash is one scan from its first byte. */
  lemma CanonicalIsFixed(q: bytes)
    requires IsCanonical(q)
    ensures CanonicalPath(q).out == q
  {
    var mid := IdentityUpTo(q, 0, Start([]), |q|);
    assert q[..|q|] == q;
  }

  lemma {:induction false} ScanOk(q: bytes, i: nat, st: State)
    requires i <= |q| && st.ok && CleanChars(q) && NoNulEscape(q)
    ensures Scan(q, i, st).ok
    decreases |q| - i
  {
    if i < |q| {
      assert IsOutChar(q[i]);
      var (j, next) := Step(q, i, st);
      assert next.ok;
      ScanOk(q, j, next);
    }
  }

  // ---- A second run over a torn escape -------------------------------------

  /** From the torn escape on, the second run never rewinds, and position t never holds a percent sign. */
  predicate Spoilt(q: bytes, t: nat, i: nat, st: State)
    requires i <= |q|
  {
    && t < i && t < |st.out| && st.out[t] != PERCENT
    && (st.EndsInSlash() ==> q[i - 1] == SLASH)
  }

  lemma SpoiltStep(q: bytes, t: nat, i: nat, st: State)
    requires i < |q| && CleanChars(q) && NoDotSegment(q) && NoEscapedDot(q) && Spoilt(q, t, i, st)
    ensures var (j, next) := Step(q, i, st); Spoilt(q, t, j, next)
  {
    assert IsOutChar(q[i]);
    if q[i] == DOT {
      if st.EndsInSlash() { SeesNoDotSegment(q, i); }
    } else if q[i] == PERCENT {
      SpoiltPercent(q, t, i, st);
    }
  }

  lemma SpoiltPercent(q: bytes, t: nat, i: nat, st: State)
    requires i < |q| && q[i] == PERCENT && t < i && t < |st.out| && st.out[t] != PERCENT
    ensures var (j, next) := StepPercent(q, i, st); Spoilt(q, t, j, next)
  {
    if IsEscapeAt(q, i) && PathChar(EscapeValue(q, i)).Unescape? { SpoiltUnescape(q, t, i + 3, EscapeValue(q, i), st); }
  }

  lemma SpoiltUnescape(q: bytes, t: nat, j: nat, v: byte, st: State)
    requires j <= |q| && t < |st.out| && st.out[t] != PERCENT && PathChar(v).Unescape?
    ensures var next := PushUnescaped(q, j, v, st);
      t < |next.out| && next.out[t] != PERCENT && !next.EndsInSlash()
  {
    var out := st.out + [v];
    if st.lastInvalid.Some? && st.lastInvalid.value >= |out| - 3 && NeedsRepair(q, j, st.lastInvalid.value, out) {
      RepairedText(out, st.lastInvalid.value);
    }
  }

  lemma {:induction false} SpoiltScan(q: bytes, t: nat, i: nat, st: State)
    requires i <= |q| && CleanChars(q) && NoDotSegment(q) && NoEscapedDot(q) && Spoilt(q, t, i, st)
    ensures var r := Scan(q, i, st); t < |r.out| && r.out[t] != PERCENT
    decreases |q| - i
  {
    if i < |q| {
      SpoiltStep(q, t, i, st);
      var (j, next) := Step(q, i, st);
      SpoiltScan(q, t, j, next);
    }
  }

  /** The step that meets the escape at t leaves some other character at t. */
  lemma SpoilingStep(q: bytes, t: nat, st: State)
    requires t < |q| && q[t] == PERCENT && UnescapesAt(q, t) && NoEscapedDot(q) && st.out == q[..t]
    ensures var (j, next) := Step(q, t, st); Spoilt(q, t, j, next)
  {
    var v := EscapeValue(q, t);
    assert PathChar(v).Unescape?;
    var out := st.out + [v];
    if st.lastInvalid.Some? && st.lastInvalid.value >= |out| - 3 && NeedsRepair(q, t + 3, st.lastInvalid.value, out) {
      RepairedText(out, st.lastInvalid.value);
    }
  }

  lemma {:induction false} FirstUnescapable(q: bytes, i: nat) returns (t: nat)
    requires i <= |q| && exists k :: i <= k < |q| && q[k] == PERCENT && UnescapesAt(q, k)
    ensures i <= t < |q| && q[t] == PERCENT && UnescapesAt(q, t)
    ensures forall k :: i <= k < t && q[k] == PERCENT ==> !UnescapesAt(q, k)
    decreases |q| - i
  {
    if q[i] == PERCENT && UnescapesAt(q, i) { t := i; } else { t := FirstUnescapable(q, i + 1); }
  }

  lemma UnescapableIsChanged(q: bytes)
    requires IsCleanPath(q) && !NoUnescapable(q)
    ensures CanonicalPath(q).out != q
  {
    var t := FirstUnescapable(q, 0);
    var mid := IdentityUpTo(q, 0, Start([]), t);
    SpoilingStep(q, t, mid);
    var (j, next) := Step(q, t, mid);
    SpoiltScan(q, t, j, next);
  }

  /** A path that has been canonicalized once is changed by a second run if and only if there is an escape in it that
      the scanner would replace. */
  lemma FixedIffNoUnescapable(q: bytes)
    requires IsCleanPath(q)
    ensures CanonicalPath(q).out == q <==> NoUnescapable(q)
  {
    if NoUnescapable(q) { CanonicalIsFixed(q); } else { UnescapableIsChanged(q); }
  }

  // ---- The theorems --------------------------------------------------------

  /** The second canonicalization changes nothing if and only if the trace of the path shows no torn escape. */
  lemma IdempotentIff(s: bytes)
    ensures CanonicalPath(CanonicalPath(s).out).out == CanonicalPath(s).out <==> !LeavesTornEscape(s)
  {
    TornIsUnescapable(s);
    FixedIffNoUnescapable(CanonicalPath(s).out);
  }

  /** The torn escapes of the trace are the escapes of the output that the scanner would replace. */
  lemma TornIsUnescapable(s: bytes)
    ensures var q := CanonicalPath(s).out; IsCleanPath(q) && (NoUnescapable(q) <==> !LeavesTornEscape(s))
  {
    PathResult(s);
    TraceIsExact(s);
    var r := CanonicalPath(s);
    if LeavesTornEscape(s) {
      var t :| t in r.torn;
      assert TornAt(r.out, t);
    }
  }

  lemma {:induction false} FailedStays(q: bytes, i: nat, st: State)
    requires i <= |q| && !st.ok
    ensures !Scan(q, i, st).ok
    decreases |q| - i
  {
    if i < |q| { FailedStays(q, Step(q, i, st).0, Step(q, i, st).1); }
  }

  /** No step passes over a percent sign. */
  lemma StepStopsAtPercent(q: bytes, i: nat, st: State, k: nat)
    requires i < k < |q| && q[k] == PERCENT && NoEscapedDot(q)
    ensures Step(q, i, st).0 <= k
  {
    if q[i] == DOT && i + 1 < |q| { assert IsDot(q, i + 1) <= 1; }
  }

  lemma {:induction false} NulIsMet(q: bytes, i: nat, st: State, k: nat)
    requires i <= k && NulAt(q, k) && NoEscapedDot(q)
    ensures !Scan(q, i, st).ok
    decreases |q| - i
  {
    if i < k {
      StepStopsAtPercent(q, i, st, k);
      NulIsMet(q, Step(q, i, st).0, Step(q, i, st).1, k);
    } else {
      FailedStays(q, Step(q, i, st).0, Step(q, i, st).1);
    }
  }

  /** The verdict of the second run, for every input at all: the path is accepted if and only if no escape of a NUL was
      left by the first. */
  lemma SecondVerdict(s: bytes)
    ensures CanonicalPath(CanonicalPath(s).out).ok <==> NoNulEscape(CanonicalPath(s).out)
    ensures CanonicalPath(CanonicalPath(s).out).ok <==> !LeavesNulEscape(s)
  {
    PathResult(s);
    TraceIsExact(s);
    var q := CanonicalPath(s).out;
    if NoNulEscape(q) {
      ScanOk(q, 0, Start([]));
      assert TraceOf(s).nuls == {};
    } else {
      var k :| 0 <= k < |q| && q[k] == PERCENT && IsEscapeAt(q, k) && EscapeValue(q, k) == 0;
      assert NulAt(q, k);
      NulIsMet(q, 0, Start([]), k);
    }
  }

  /** A NUL, as it is or escaped. */
  predicate NulIn(s: bytes, k: nat)
    requires k < |s|
  {
    s[k] == 0 || (s[k] == PERCENT && IsEscapeAt(s, k) && EscapeValue(s, k) == 0)
  }

  predicate NoNul(s: bytes) { forall k :: 0 <= k < |s| ==> !NulIn(s, k) }

  lemma StepVerdict(s: bytes, i: nat, st: State)
    requires i < |s|
    ensures Step(s, i, st).1.ok <==> st.ok && !NulIn(s, i)
    ensures forall k :: i < k < Step(s, i, st).0 ==> !NulIn(s, k)
  {
  }

  lemma {:induction false} ScanVerdict(s: bytes, i: nat, st: State)
    requires i <= |s|
    ensures Scan(s, i, st).ok <==> st.ok && forall k :: i <= k < |s| ==> !NulIn(s, k)
    decreases |s| - i
  {
    if i < |s| {
      StepVerdict(s, i, st);
      ScanVerdict(s, Step(s, i, st).0, Step(s, i, st).1);
    }
  }

  /** The verdict of the first run, for every input: the path is accepted if and only if there is no NUL anywhere in it,
      whatever is rewound later. */
  lemma FirstVerdict(s: bytes)
    ensures CanonicalPath(s).ok <==> NoNul(s)
  {
    if |s| > 0 { ScanVerdict(s, 0, Start(if IsUrlSlash(s[0]) then [] else [SLASH])); }
  }

  /** So the two verdicts are the same if and only if there is no NUL in the path, or the trace shows one that is left. A
      path can fail the first time and be accepted the second time, but not the other way round. */
  lemma VerdictStableIff(s: bytes)
    ensures CanonicalPath(CanonicalPath(s).out).ok == CanonicalPath(s).ok <==> NoNul(s) || LeavesNulEscape(s)
    ensures CanonicalPath(s).ok ==> CanonicalPath(CanonicalPath(s).out).ok
  {
    FirstVerdict(s);
    PathResult(s);
    SecondVerdict(s);
  }

  /** "/%00/.." */
  const REWOUND_NUL: bytes := [SLASH, PERCENT, ZERO, ZERO, SLASH, DOT, DOT]

  /** "/%00/..": the NUL makes the path fail, and is then rewound. What is left is "/", which is accepted. */
  lemma RewoundNulChangesVerdict()
    ensures !CanonicalPath(REWOUND_NUL).ok && CanonicalPath(REWOUND_NUL).out == [SLASH]
    ensures CanonicalPath([SLASH]).ok && !LeavesNulEscape(REWOUND_NUL)
  {
    var s := REWOUND_NUL;
    LiteralStep(s, 0, Start([]), [SLASH]);
    var s1 := State([SLASH, PERCENT, ZERO, ZERO], None, false, {});
    assert [SLASH] + [PERCENT, ZERO, ZERO] == s1.out;
    assert Step(s, 1, Start([SLASH])) == (4, s1);
    var s2 := s1.(out := [SLASH, PERCENT, ZERO, ZERO, SLASH]);
    LiteralStep(s, 4, s1, s2.out);
    NulIsRewound(s2);
    LiteralStep([SLASH], 0, Start([]), [SLASH]);
    SecondVerdict(s);
  }

  lemma NulIsRewound(st: State)
    requires st == State([SLASH, PERCENT, ZERO, ZERO, SLASH], None, false, {})
    ensures Scan(REWOUND_NUL, 5, st) == st.(out := [SLASH])
  {
    assert ClassifyAfterDot(REWOUND_NUL, 6) == DirectoryUp(1);
    assert BackUp(st.out) == UpToSlash(st.out, 3) == UpToSlash(st.out, 2) == UpToSlash(st.out, 1) == UpToSlash(st.out, 0);
    assert st.Rewind() == st.(out := [SLASH]);
    assert Step(REWOUND_NUL, 5, st) == (7, st.(out := [SLASH]));
  }

  // ---- When nothing stale is met ---------------------------------------------

  /** What the mended scanner writes is stable, whatever the path. */
  lemma MendedIsStable(s: bytes)
    ensures MendedPath(s).torn == {} && CanonicalPath(MendedPath(s).out).out == MendedPath(s).out
  {
    var i, r := if |s| > 0 && IsUrlSlash(s[0]) then 1 else 0, MendedPath(s);
    RootIsTraced(s);
    MendedScanKeeps(s, i, Start([SLASH]));
    forall k | 0 <= k < |r.out| && r.out[k] == PERCENT ensures !UnescapesAt(r.out, k) {
      assert PercentOk(r.out, k, r.lastInvalid, r.torn, r.ok);
    }
    CanonicalIsFixed(r.out);
  }

  /** Without a ".." behind a malformed percent sign the path is stable. */
  lemma IdempotentWithoutUpAfterMalformed(s: bytes)
    requires NoUpAfterMalformed(s)
    ensures !LeavesTornEscape(s) && CanonicalPath(CanonicalPath(s).out).out == CanonicalPath(s).out
  {
    PathIsMended(s);
    MendedIsStable(s);
    IdempotentIff(s);
  }

  // ---- A path that is not stable ---------------------------------------------

  /** "/a%/../%5C%41" */
  const STALE: bytes := [SLASH, 0x61, PERCENT, SLASH, DOT, DOT, SLASH, PERCENT, 0x35, 0x43, PERCENT, 0x34, 0x31]

  /** "/%525CA" */
  const STALE_ONCE: bytes := [SLASH, PERCENT, 0x35, 0x32, 0x35, 0x43, 0x41]

  /** "/R5CA" */
  const STALE_TWICE: bytes := [SLASH, 0x52, 0x35, 0x43, 0x41]

  lemma LiteralStep(s: bytes, i: nat, st: State, out: bytes)
    requires i < |s| && !IsSpecial(s[i]) && out == st.out + [s[i]]
    ensures Scan(s, i, st) == Scan(s, i + 1, st.(out := out))
  {
    assert Step(s, i, st) == (i + 1, st.(out := out));
  }

  lemma StaleRewind(st: State)
    requires st == State([SLASH, 0x61, PERCENT, SLASH], Some(2), true, {})
    ensures Scan(STALE, 4, st) == Scan(STALE, 7, st.(out := [SLASH]))
  {
    assert ClassifyAfterDot(STALE, 5) == DirectoryUp(2);
    assert BackUp(st.out) == UpToSlash(st.out, 2) == UpToSlash(st.out, 1) == UpToSlash(st.out, 0) == [SLASH];
    assert st.Rewind().torn == {};
    assert Step(STALE, 4, st) == (7, st.(out := [SLASH]));
  }

  lemma StaleRepair(st: State)
    requires st == State([SLASH, PERCENT, 0x35, 0x43], Some(2), true, {})
    ensures Scan(STALE, 10, st) == State(STALE_ONCE, Some(2), true, {1})
  {
    var longer := [SLASH, PERCENT, 0x35, 0x43, 0x41];
    assert st.out + [0x41] == longer;
    assert Repaired(longer, 2) == STALE_ONCE;
    assert Tears(longer, 2) && st.torn + {1} == {1};
    assert EscapeValue(STALE, 10) == 0x41;
    assert Step(STALE, 10, st) == (13, State(STALE_ONCE, Some(2), true, {1}));
  }

  lemma StaleHead()
    ensures CanonicalPath(STALE) == Scan(STALE, 4, State([SLASH, 0x61, PERCENT, SLASH], Some(2), true, {}))
  {
    var s := STALE;
    LiteralStep(s, 0, Start([]), [SLASH]);
    LiteralStep(s, 1, Start([SLASH]), [SLASH, 0x61]);
    var s3 := State([SLASH, 0x61, PERCENT], Some(2), true, {});
    assert [SLASH, 0x61] + [PERCENT] == s3.out;
    assert Step(s, 2, Start([SLASH, 0x61])) == (3, s3);
    LiteralStep(s, 3, s3, [SLASH, 0x61, PERCENT, SLASH]);
  }

  lemma StaleKept(st: State)
    requires st == State([SLASH], Some(2), true, {})
    ensures Scan(STALE, 7, st) == Scan(STALE, 10, st.(out := [SLASH, PERCENT, 0x35, 0x43]))
  {
    assert st.out + [PERCENT, 0x35, 0x43] == [SLASH, PERCENT, 0x35, 0x43];
    assert EscapeValue(STALE, 7) == 0x5C;
    assert Step(STALE, 7, st) == (10, st.(out := [SLASH, PERCENT, 0x35, 0x43]));
  }

  lemma FirstStaleRun()
    ensures CanonicalPath(STALE) == State(STALE_ONCE, Some(2), true, {1})
  {
    StaleHead();
    StaleRewind(State([SLASH, 0x61, PERCENT, SLASH], Some(2), true, {}));
    StaleKept(State([SLASH], Some(2), true, {}));
    StaleRepair(State([SLASH, PERCENT, 0x35, 0x43], Some(2), true, {}));
  }

  lemma SecondStaleRun()
    ensures CanonicalPath(STALE_ONCE) == Start(STALE_TWICE)
  {
    var q := STALE_ONCE;
    LiteralStep(q, 0, Start([]), [SLASH]);
    assert [SLASH] + [0x52] == [SLASH, 0x52];
    assert EscapeValue(q, 1) == 0x52;
    assert Step(q, 1, Start([SLASH])) == (4, Start([SLASH, 0x52]));
    LiteralStep(q, 4, Start([SLASH, 0x52]), [SLASH, 0x52, 0x35]);
    LiteralStep(q, 5, Start([SLASH, 0x52, 0x35]), [SLASH, 0x52, 0x35, 0x43]);
    LiteralStep(q, 6, Start([SLASH, 0x52, 0x35, 0x43]), STALE_TWICE);
  }

  /** "/a%/../%5C%41": the remembered position 2 is stale after "..", and the repair there tears "%5C". The second
      run turns "/%525CA" into "/R5CA". */
  lemma StalePercentBreaksIdempotence()
    ensures LeavesTornEscape(STALE) && CanonicalPath(STALE).out == STALE_ONCE
    ensures CanonicalPath(STALE_ONCE).out == STALE_TWICE != STALE_ONCE
  {
    FirstStaleRun();
    TraceIsExact(STALE);
    SecondStaleRun();
  }
}
