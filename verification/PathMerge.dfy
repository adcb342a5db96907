/**
 Appending a relative path to a canonical directory against canonicalizing the merged text (RFC 3986,
 sections 5.2.3 and 5.2.4), and the safety of the root.
 */
module PathMerge {
  import opened Bytes
  import opened PathSpec
  import opened PathInvariant
  import opened PathMended
  import opened PathIdempotence

  // ---- The root ------------------------------------------------------------

  lemma StepKeepsRoot(s: bytes, i: nat, st: State)
    requires i < |s| && |st.out| > 0 && st.out[0] == SLASH
    ensures var next := Step(s, i, st).1; |next.out| > 0 && next.out[0] == SLASH
  {
  }

  /** For every input and every output so far: the slash at the root is never removed or overwritten. */
  lemma {:induction false} ScanKeepsRoot(s: bytes, i: nat, st: State)
    requires i <= |s| && |st.out| > 0 && st.out[0] == SLASH
    ensures var r := Scan(s, i, st); |r.out| > 0 && r.out[0] == SLASH
    decreases |s| - i
  {
    if i < |s| {
      StepKeepsRoot(s, i, st);
      var (j, next) := Step(s, i, st);
      ScanKeepsRoot(s, j, next);
    }
  }

  // ---- Scanning a text behind another --------------------------------------

  lemma PercentBehind(a: bytes, r: bytes, i: nat, st: State)
    requires i < |r|
    ensures StepPercent(a + r, |a| + i, st) == (|a| + StepPercent(r, i, st).0, StepPercent(r, i, st).1)
  {
    var s := a + r;
    assert IsEscapeAt(s, |a| + i) == IsEscapeAt(r, i);
    if IsEscapeAt(r, i) {
      var v := EscapeValue(r, i);
      assert EscapeValue(s, |a| + i) == v;
      var out := st.out + [v];
      var p := st.lastInvalid.GetOr(0);
      assert NeedsRepair(s, |a| + i + 3, p, out) == NeedsRepair(r, i + 3, p, out);
      assert PushUnescaped(s, |a| + i + 3, v, st) == PushUnescaped(r, i + 3, v, st);
    }
  }

  /** The scanner looks only forward. */
  lemma StepBehind(a: bytes, r: bytes, i: nat, st: State)
    requires i < |r|
    ensures Step(a + r, |a| + i, st) == (|a| + Step(r, i, st).0, Step(r, i, st).1)
  {
    var s := a + r;
    assert s[|a| + i] == r[i];
    assert IsDot(s, |a| + i) == IsDot(r, i);
    if IsDot(r, i) > 0 {
      ClassifyBehind(a, r, i + IsDot(r, i));
    } else if r[i] == PERCENT {
      PercentBehind(a, r, i, st);
    }
  }

  lemma ClassifyBehind(a: bytes, r: bytes, i: nat)
    requires i <= |r|
    ensures ClassifyAfterDot(a + r, |a| + i) == ClassifyAfterDot(r, i)
  {
    if i < |r| { assert IsDot(a + r, |a| + i) == IsDot(r, i); }
  }

  lemma {:induction false} ScanBehind(a: bytes, r: bytes, i: nat, st: State)
    requires i <= |r|
    ensures Scan(a + r, |a| + i, st) == Scan(r, i, st)
    decreases |r| - i
  {
    if i < |r| {
      StepBehind(a, r, i, st);
      ScanBehind(a, r, Step(r, i, st).0, Step(r, i, st).1);
    }
  }

  // ---- A canonical directory before a relative path ------------------------

  /** What CopyToLastSlash leaves of a canonical path. */
  predicate IsDirectory(a: bytes) { IsCanonical(a) && a[|a| - 1] == SLASH }

  /** Text behind the last slash of a directory changes nothing before it. */
  lemma StepBefore(a: bytes, r: bytes, i: nat, st: State)
    requires IsDirectory(a) && i < |a| && st.out == a[..i]
    ensures Step(a + r, i, st) == Step(a, i, st)
  {
    var s := a + r;
    assert IsOutChar(a[i]);
    if a[i] == DOT {
      assert i + 1 < |a| && IsDot(s, i) == 1;
      if st.EndsInSlash() {
        SeesNoDotSegment(a, i);
        assert !IsUrlSlash(a[i + 1]);
        assert IsDot(a, i + 1) == IsDot(s, i + 1);
        assert !(IsDot(a, i + 1) > 0) || i + 1 + IsDot(a, i + 1) < |a|;
      }
    } else if a[i] == PERCENT {
      assert IsEscapeAt(a, i) == IsEscapeAt(s, i);
    }
  }

  /** Everything before i has been copied. */
  predicate CopiedUpTo(a: bytes, i: nat, st: State)
    requires i <= |a|
  {
    st.out == a[..i] && st.ok == NoNulBefore(a, i) && st.torn == {} && LastMalformed(a, i, st.lastInvalid)
  }

  predicate MalformedAt(a: bytes, i: nat)
    requires i < |a|
  {
    a[i] == PERCENT && !IsEscapeAt(a, i)
  }

  predicate NulEscapeAt(a: bytes, i: nat)
    requires i < |a|
  {
    a[i] == PERCENT && IsEscapeAt(a, i) && EscapeValue(a, i) == 0
  }

  lemma FlagsStep(a: bytes, i: nat, st: State)
    requires IsDirectory(a) && i < |a| && st.out == a[..i] && st.torn == {}
    ensures var next := Step(a, i, st).1;
      && next.torn == {} && next.ok == (st.ok && !NulEscapeAt(a, i))
      && next.lastInvalid == if MalformedAt(a, i) then Some(i) else st.lastInvalid
  {
    assert IsOutChar(a[i]);
    if a[i] == DOT && st.EndsInSlash() { SeesNoDotSegment(a, i); }
  }

  lemma CopyStep(a: bytes, i: nat, st: State)
    requires IsDirectory(a) && i < |a| && CopiedUpTo(a, i, st)
    ensures CopiedUpTo(a, Step(a, i, st).0, Step(a, i, st).1)
  {
    var (j, next) := Step(a, i, st);
    IdentityStep(a, i, st);
    FlagsStep(a, i, st);
    assert NoNulBefore(a, j) <==> NoNulBefore(a, i) && !NulEscapeAt(a, i);
    assert LastMalformed(a, j, next.lastInvalid);
  }

  lemma {:induction false} ScanBefore(a: bytes, r: bytes, i: nat, st: State) returns (mid: State)
    requires IsDirectory(a) && i <= |a| && CopiedUpTo(a, i, st)
    ensures Scan(a + r, i, st) == Scan(a + r, |a|, mid) && CopiedUpTo(a, |a|, mid)
    decreases |a| - i
  {
    if i == |a| {
      mid := st;
    } else {
      StepBefore(a, r, i, st);
      CopyStep(a, i, st);
      var (j, next) := Step(a, i, st);
      mid := ScanBefore(a, r, j, next);
    }
  }

  /** last is the position of the last malformed percent sign before end. */
  predicate LastMalformed(a: bytes, end: nat, last: Option<nat>)
    requires end <= |a|
  {
    && (last.Some? ==> last.value < end && a[last.value] == PERCENT && !IsEscapeAt(a, last.value))
    && forall k :: 0 <= k < end && a[k] == PERCENT && !IsEscapeAt(a, k) ==> last.Some? && k <= last.value
  }

  predicate NoNulBefore(a: bytes, end: nat)
    requires end <= |a|
  {
    forall k :: 0 <= k < end && a[k] == PERCENT && IsEscapeAt(a, k) ==> EscapeValue(a, k) != 0
  }

  /** A failure does not change what is written. */
  lemma {:induction false} ScanFailed(s: bytes, i: nat, st: State)
    requires i <= |s|
    ensures Scan(s, i, st.(ok := false)) == Scan(s, i, st).(ok := false)
    decreases |s| - i
  {
    if i < |s| {
      var (j, next) := Step(s, i, st);
      assert Step(s, i, st.(ok := false)) == (j, next.(ok := false));
      ScanFailed(s, j, next);
    }
  }

  /** The merged text, at the end of the directory. */
  lemma MergedScan(a: bytes, r: bytes) returns (mid: State)
    requires IsDirectory(a)
    ensures mid == State(a, mid.lastInvalid, NoNulEscape(a), {}) && LastMalformed(a, |a|, mid.lastInvalid)
    ensures CanonicalPath(a + r) == Scan(r, 0, mid)
  {
    mid := ScanBefore(a, r, 0, Start([]));
    assert a[..|a|] == a;
    ScanBehind(a, r, 0, mid);
  }

  /** No segment of the reference is "..". */
  predicate NoUp(r: bytes) { forall i :: 0 <= i < |r| ==> !UpAt(r, i) }

  /** The percent sign at p is out of the reach of repairs, now and as long as nothing is rewound. */
  predicate OutOfReach(out: bytes, p: nat) { |out| >= p + 3 || (|out| == p + 2 && out[p + 1] == SLASH) }

  /** The same variables, except that one of the two remembers a percent sign that is out of reach. */
  predicate SameButReach(st: State, other: State) {
    && other == st.(lastInvalid := other.lastInvalid)
    && (other.lastInvalid == st.lastInvalid
        || (st.lastInvalid == None && other.lastInvalid.Some? && OutOfReach(st.out, other.lastInvalid.value)))
  }

  lemma UnescapedReach(r: bytes, next: nat, v: byte, st: State, other: State)
    requires next <= |r| && SameButReach(st, other)
    ensures SameButReach(PushUnescaped(r, next, v, st), PushUnescaped(r, next, v, other))
  {
  }

  lemma StepReach(r: bytes, i: nat, st: State, other: State)
    requires i < |r| && NoUp(r) && AtSegment(r, i, st) && SameButReach(st, other)
    ensures Step(r, i, st).0 == Step(r, i, other).0 && SameButReach(Step(r, i, st).1, Step(r, i, other).1)
  {
    assert !UpAt(r, i);
    if r[i] == PERCENT && IsDot(r, i) == 0 && IsEscapeAt(r, i) { UnescapedReach(r, i + 3, EscapeValue(r, i), st, other); }
  }

  lemma {:induction false} ScanReach(r: bytes, i: nat, st: State, other: State)
    requires i <= |r| && NoUp(r) && AtSegment(r, i, st) && SameButReach(st, other)
    ensures SameButReach(Scan(r, i, st), Scan(r, i, other))
    decreases |r| - i
  {
    if i < |r| {
      StepReach(r, i, st, other);
      StepAtSegment(r, i, st);
      ScanReach(r, Step(r, i, st).0, Step(r, i, st).1, Step(r, i, other).1);
    }
  }

  /** A directory without malformed percent signs, or a reference without "..": appending is the same as merging. */
  lemma MergeIsAppend(a: bytes, r: bytes)
    requires IsDirectory(a) && (NoMalformedPercent(a) || NoUp(r))
    ensures var merged, appended := CanonicalPath(a + r), Scan(r, 0, Start(a));
      && merged == appended.(ok := appended.ok && NoNulEscape(a), lastInvalid := merged.lastInvalid)
      && (NoMalformedPercent(a) ==> merged.lastInvalid == appended.lastInvalid)
  {
    var mid := MergedScan(a, r);
    var start := State(a, mid.lastInvalid, true, {});
    if NoUp(r) { ScanReach(r, 0, Start(a), start); }
    if !NoNulEscape(a) { ScanFailed(r, 0, start); }
  }

  // ---- A directory with a malformed percent sign ---------------------------

  /** "../" n times over. */
  function Ups(n: nat): bytes { if n == 0 then [] else [DOT, DOT, SLASH] + Ups(n - 1) }

  lemma OneUp(r: bytes, st: State)
    requires |st.out| > 0 && st.out[0] == SLASH && st.EndsInSlash()
    ensures Scan([DOT, DOT, SLASH] + r, 0, st) == Scan(r, 0, st.Rewind()) && st.Rewind().EndsInSlash()
    ensures |st.out| > 1 ==> |st.Rewind().out| < |st.out|
    ensures st.Rewind().out[0] == SLASH
  {
    var s := [DOT, DOT, SLASH] + r;
    assert ClassifyAfterDot(s, 1) == DirectoryUp(2);
    assert Step(s, 0, st) == (3, st.Rewind());
    ScanBehind([DOT, DOT, SLASH], r, 0, st.Rewind());
  }

  /** Enough of them lead to the root, whatever the output was, and leave lastInvalid alone. */
  lemma {:induction false} UpsToRoot(n: nat, r: bytes, st: State)
    requires |st.out| > 0 && st.out[0] == SLASH && st.EndsInSlash() && n >= |st.out| - 1 && st.torn == {}
    ensures Scan(Ups(n) + r, 0, st).out == Scan(r, 0, st.(out := [SLASH])).out
    decreases n
  {
    if n == 0 {
      assert Ups(0) + r == r && st.out == [SLASH];
    } else {
      assert Ups(n) + r == [DOT, DOT, SLASH] + (Ups(n - 1) + r);
      OneUp(Ups(n - 1) + r, st);
      assert st.Rewind().torn == {};
      UpsToRoot(n - 1, r, st.Rewind());
    }
  }

  /** The letter x n times over. */
  function Letters(n: nat): (s: bytes)
    ensures |s| == n && forall k :: 0 <= k < n ==> s[k] == 0x78
  {
    if n == 0 then [] else [0x78] + Letters(n - 1)
  }

  lemma {:induction false} ScanLetters(n: nat, r: bytes, st: State)
    ensures Scan(Letters(n) + r, 0, st) == Scan(r, 0, st.(out := st.out + Letters(n)))
    decreases n
  {
    if n == 0 {
      assert Letters(0) + r == r && st.out + Letters(0) == st.out;
    } else {
      var rest := Letters(n - 1) + r;
      assert Letters(n) + r == [0x78] + rest;
      assert Step([0x78] + rest, 0, st) == (1, st.Push([0x78]));
      ScanBehind([0x78], rest, 0, st.Push([0x78]));
      ScanLetters(n - 1, r, st.Push([0x78]));
      assert st.out + [0x78] + Letters(n - 1) == st.out + Letters(n);
    }
  }

  /** "%411": an escape resolved, and a digit. */
  const PROBE: bytes := [PERCENT, 0x34, 0x31, 0x31]

  /** With a stale position two before its end, the output gets two characters more. */
  lemma ProbeLength(st: State)
    requires |st.out| >= 2 && (st.lastInvalid == None || st.lastInvalid == Some(|st.out| - 1))
    ensures |Scan(PROBE, 0, st).out| == |st.out| + if st.lastInvalid == None then 2 else 4
  {
    assert EscapeValue(PROBE, 0) == 0x41;
    var next := PushUnescaped(PROBE, 3, 0x41, st);
    assert Step(PROBE, 0, st) == (3, next);
    var out := st.out + [0x41];
    if st.lastInvalid.Some? {
      assert NeedsRepair(PROBE, 3, st.lastInvalid.value, out);
      assert |next.out| == |st.out| + 3;
    }
    assert Step(PROBE, 3, next) == (4, next.Push([0x31]));
    assert Scan(PROBE, 3, next) == Scan(PROBE, 4, next.Push([0x31])) == next.Push([0x31]);
  }

  /** A reference for which appending and merging differ. */
  function Distinguishing(a: bytes, last: nat): bytes { Ups(|a|) + (Letters(last) + PROBE) }

  lemma DistinguishedLength(a: bytes, st: State, last: nat)
    requires IsDirectory(a) && st.out == a && st.torn == {} && 1 <= last
    requires st.lastInvalid == None || st.lastInvalid == Some(last)
    ensures |Scan(Distinguishing(a, last), 0, st).out| == last + 1 + if st.lastInvalid == None then 2 else 4
  {
    UpsToRoot(|a|, Letters(last) + PROBE, st);
    var atRoot := st.(out := [SLASH]);
    ScanLetters(last, PROBE, atRoot);
    ProbeLength(atRoot.(out := [SLASH] + Letters(last)));
  }

  lemma MalformedDistinguishes(a: bytes) returns (r: bytes, last: nat)
    requires IsDirectory(a) && !NoMalformedPercent(a)
    ensures r == Distinguishing(a, last) && CanonicalPath(a + r).out != Scan(r, 0, Start(a)).out
  {
    var mid := MergedScan(a, []);
    last := mid.lastInvalid.value;
    r := Distinguishing(a, last);
    var again := MergedScan(a, r);
    assert again.lastInvalid == mid.lastInvalid;
    DistinguishedLength(a, again, last);
    DistinguishedLength(a, Start(a), last);
  }

  /** Appending agrees with merging for every reference exactly when the directory of the base has no malformed
      percent sign. */
  lemma MergeIffNoMalformedPercent(a: bytes)
    requires IsDirectory(a)
    ensures (forall r: bytes :: CanonicalPath(a + r).out == Scan(r, 0, Start(a)).out) <==> NoMalformedPercent(a)
  {
    if NoMalformedPercent(a) {
      forall r: bytes ensures CanonicalPath(a + r).out == Scan(r, 0, Start(a)).out { MergeIsAppend(a, r); }
    } else {
      var r, last := MalformedDistinguishes(a);
    }
  }
}
