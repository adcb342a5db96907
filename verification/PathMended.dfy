/**
 The scanner as its own comments describe it: a malformed percent sign is forgotten when a ".." removes it from the
 output. The output of the program is that of the mended scanner with the characters of stale repairs put in, and a
 scan of the input tells whether there are any.
 */
module PathMended {
  import opened Bytes
  import opened PathSpec
  import opened PathInvariant
  import opened PathTraces

  // ---- The mended scanner ----------------------------------------------------

  /** The malformed percent sign is forgotten if the output does not reach so far any more. */
  function Forget(st: State): State {
    if st.lastInvalid.Some? && st.lastInvalid.value >= |st.out| then st.(lastInvalid := None) else st
  }

  function MendedStep(s: bytes, i: nat, st: State): (r: (nat, State))
    requires i < |s|
    ensures i < r.0 <= |s|
  {
    var (j, next) := Step(s, i, st);
    (j, Forget(next))
  }

  function MendedScan(s: bytes, i: nat, st: State): State
    requires i <= |s|
    decreases |s| - i
  {
    if i == |s| then st
    else
      var (j, next) := MendedStep(s, i, st);
      MendedScan(s, j, next)
  }

  function MendedPath(s: bytes): State { MendedScan(s, if |s| > 0 && IsUrlSlash(s[0]) then 1 else 0, Start([SLASH])) }

  /** The remembered percent sign, if any, is still there. */
  predicate IsFresh(st: State) {
    && st.torn == {}
    && (st.lastInvalid.Some? ==> st.lastInvalid.value < |st.out| && st.out[st.lastInvalid.value] == PERCENT)
  }

  lemma UnescapedIsFresh(s: bytes, next: nat, v: byte, st: State)
    requires next <= |s| && IsFresh(st)
    ensures IsFresh(PushUnescaped(s, next, v, st))
  {
    if st.lastInvalid.Some? { assert (st.out + [v])[st.lastInvalid.value] == PERCENT; }
  }

  lemma ForgetKeeps(s: bytes, i: nat, st: State)
    requires i <= |s| && Inv(s, i, st)
    ensures Inv(s, i, Forget(st))
  {
    forall k | 0 <= k < |st.out| && st.out[k] == PERCENT
      ensures PercentOk(st.out, k, Forget(st).lastInvalid, st.torn, st.ok)
    {
      assert PercentOk(st.out, k, st.lastInvalid, st.torn, st.ok);
    }
  }

  lemma StepIsFresh(s: bytes, i: nat, st: State)
    requires i < |s| && |st.out| > 0 && IsFresh(st)
    ensures IsFresh(MendedStep(s, i, st).1)
  {
    if IsDot(s, i) > 0 { DotIsFresh(s, i, st); }
    else if s[i] == PERCENT { PercentIsFresh(s, i, st); }
  }

  lemma DotIsFresh(s: bytes, i: nat, st: State)
    requires i < |s| && |st.out| > 0 && IsFresh(st) && IsDot(s, i) > 0
    ensures IsFresh(Forget(StepDot(s, i, IsDot(s, i), st).1))
  {
  }

  lemma PercentIsFresh(s: bytes, i: nat, st: State)
    requires i < |s| && IsFresh(st) && s[i] == PERCENT
    ensures IsFresh(StepPercent(s, i, st).1)
  {
    if IsEscapeAt(s, i) { UnescapedIsFresh(s, i + 3, EscapeValue(s, i), st); }
  }

  lemma MendedStepKeeps(s: bytes, i: nat, st: State)
    requires i < |s| && Inv(s, i, st) && IsFresh(st)
    ensures var (j, next) := MendedStep(s, i, st); Inv(s, j, next) && IsFresh(next)
  {
    StepKeeps(s, i, st);
    ForgetKeeps(s, Step(s, i, st).0, Step(s, i, st).1);
    StepIsFresh(s, i, st);
  }

  /** Whatever the path, the mended scanner tears no escape. */
  lemma {:induction false} MendedScanKeeps(s: bytes, i: nat, st: State)
    requires i <= |s| && Inv(s, i, st) && IsFresh(st)
    ensures Inv(s, |s|, MendedScan(s, i, st)) && IsFresh(MendedScan(s, i, st))
    decreases |s| - i
  {
    if i < |s| {
      MendedStepKeeps(s, i, st);
      MendedScanKeeps(s, MendedStep(s, i, st).0, MendedStep(s, i, st).1);
    }
  }

  // ---- Characters put in -----------------------------------------------------

  predicate IsRepairChar(c: byte) { c == 0x32 || c == 0x35 }

  /** a is b with some of the two characters of a repair put in. */
  predicate PutInto(a: bytes, b: bytes)
    decreases |a|
  {
    if |a| == 0 then |b| == 0
    else
      var front := a[..|a| - 1];
      || (|b| > 0 && a[|a| - 1] == b[|b| - 1] && PutInto(front, b[..|b| - 1]))
      || (IsRepairChar(a[|a| - 1]) && PutInto(front, b))
  }

  lemma {:induction false} NothingPutIn(a: bytes)
    ensures PutInto(a, a)
    decreases |a|
  {
    if |a| > 0 { NothingPutIn(a[..|a| - 1]); }
  }

  lemma {:induction false} PutIntoLength(a: bytes, b: bytes)
    requires PutInto(a, b)
    ensures |b| <= |a| && (|a| == |b| ==> a == b)
    decreases |a|
  {
    if |a| > 0 {
      var front := a[..|a| - 1];
      if |b| > 0 && a[|a| - 1] == b[|b| - 1] && PutInto(front, b[..|b| - 1]) {
        PutIntoLength(front, b[..|b| - 1]);
        assert a == front + [a[|a| - 1]] && b == b[..|b| - 1] + [b[|b| - 1]];
      } else {
        PutIntoLength(front, b);
      }
    }
  }

  lemma PutBefore(a: bytes, b: bytes, c: byte)
    requires PutInto(a, b)
    ensures PutInto(a + [c], b + [c]) && (IsRepairChar(c) ==> PutInto(a + [c], b))
  {
    assert (a + [c])[..|a|] == a && (b + [c])[..|b|] == b;
  }

  lemma {:induction false} PutBeforeText(a: bytes, b: bytes, t: bytes)
    requires PutInto(a, b)
    ensures PutInto(a + t, b + t)
    decreases |t|
  {
    if |t| == 0 {
      assert a + t == a && b + t == b;
    } else {
      var front, c := t[..|t| - 1], t[|t| - 1];
      PutBeforeText(a, b, front);
      PutBefore(a + front, b + front, c);
      assert a + t == a + front + [c] && b + t == b + front + [c];
    }
  }

  /** One more repair, with y behind it. */
  lemma {:induction false} PutBetween(x: bytes, y: bytes, b: bytes)
    requires PutInto(x + y, b)
    ensures PutInto(x + [0x32, 0x35] + y, b)
    decreases |y|
  {
    if |y| == 0 {
      assert x + y == x && x + [0x32, 0x35] + y == x + [0x32] + [0x35];
      PutBefore(x, b, 0x32);
      PutBefore(x + [0x32], b, 0x35);
    } else {
      var front, c := y[..|y| - 1], y[|y| - 1];
      assert x + y == x + front + [c] && (x + front + [c])[..|x + front|] == x + front;
      assert x + [0x32, 0x35] + y == x + [0x32, 0x35] + front + [c];
      if |b| > 0 && c == b[|b| - 1] && PutInto(x + front, b[..|b| - 1]) {
        PutBetween(x, front, b[..|b| - 1]);
        PutBefore(x + [0x32, 0x35] + front, b[..|b| - 1], c);
        assert b == b[..|b| - 1] + [c];
      } else {
        PutBetween(x, front, b);
        PutBefore(x + [0x32, 0x35] + front, b, c);
      }
    }
  }

  lemma {:induction false} PutIntoNothing(a: bytes, n: nat)
    requires n <= |a| && PutInto(a[..n], [])
    ensures n > 0 ==> a[0] != SLASH
    decreases n
  {
    if n > 1 {
      assert a[..n][..n - 1] == a[..n - 1];
      PutIntoNothing(a, n - 1);
    }
  }

  /** The search for a slash passes over what was put in. */
  lemma {:induction false} PutIntoUp(a: bytes, i: nat, b: bytes, k: nat)
    requires i < |a| && k < |b| && a[0] == SLASH && b[0] == SLASH && PutInto(a[..i + 1], b[..k + 1])
    ensures PutInto(UpToSlash(a, i), UpToSlash(b, k))
    decreases i
  {
    var x, y := a[..i + 1], b[..k + 1];
    assert x[..i] == a[..i] && y[..k] == b[..k];
    if a[i] != SLASH {
      if a[i] == b[k] && PutInto(a[..i], b[..k]) {
        PutIntoUp(a, i - 1, b, k - 1);
      } else {
        PutIntoUp(a, i - 1, b, k);
      }
    }
  }

  lemma PutIntoCut(a: bytes, b: bytes)
    requires |a| > 0 && |b| > 0 && a[0] == SLASH && b[0] == SLASH && PutInto(a, b)
    requires a[|a| - 1] == SLASH && b[|b| - 1] == SLASH
    ensures PutInto(BackUp(a), BackUp(b))
  {
    var x, y := a[..|a| - 1], b[..|b| - 1];
    assert PutInto(x, y);
    if |b| == 1 {
      assert y == [];
      PutIntoNothing(a, |a| - 1);
    } else if |a| > 1 {
      PutIntoUp(a, |a| - 2, b, |b| - 2);
    }
  }

  // ---- The program follows the mended scanner -----------------------------------

  /** The same text from p and q on. */
  predicate SameFrom(a: bytes, p: nat, b: bytes, q: nat) { p < |a| && q < |b| && a[p..] == b[q..] && PutInto(a[..p], b[..q]) }

  /** The variables of the program, and those of the mended scanner: as long as the percent sign is not forgotten, both
      mean the same one, and nothing was put in behind it. */
  predicate Follows(st: State, mended: State) {
    && IsFresh(mended) && st.ok == mended.ok
    && |st.out| > 0 && |mended.out| > 0 && st.out[0] == SLASH && mended.out[0] == SLASH
    && st.out[|st.out| - 1] == mended.out[|mended.out| - 1]
    && PutInto(st.out, mended.out)
    && (mended.lastInvalid.Some? ==>
          st.lastInvalid.Some? && SameFrom(st.out, st.lastInvalid.value, mended.out, mended.lastInvalid.value))
  }

  lemma SameFromPush(a: bytes, p: nat, b: bytes, q: nat, t: bytes)
    requires SameFrom(a, p, b, q)
    ensures SameFrom(a + t, p, b + t, q)
  {
    assert (a + t)[p..] == a[p..] + t && (b + t)[q..] == b[q..] + t;
    assert (a + t)[..p] == a[..p] && (b + t)[..q] == b[..q];
  }

  lemma PushFollows(st: State, mended: State, t: bytes)
    requires Follows(st, mended) && |t| > 0
    ensures Follows(st.Push(t), mended.Push(t))
  {
    PutBeforeText(st.out, mended.out, t);
    if mended.lastInvalid.Some? { SameFromPush(st.out, st.lastInvalid.value, mended.out, mended.lastInvalid.value, t); }
  }

  lemma MalformedFollows(st: State, mended: State)
    requires Follows(st, mended)
    ensures Follows(st.(out := st.out + [PERCENT], lastInvalid := Some(|st.out|)),
                    mended.(out := mended.out + [PERCENT], lastInvalid := Some(|mended.out|)))
  {
    var a, b := st.out + [PERCENT], mended.out + [PERCENT];
    PutBeforeText(st.out, mended.out, [PERCENT]);
    assert a[|st.out|..] == [PERCENT] == b[|mended.out|..];
    assert a[..|st.out|] == st.out && b[..|mended.out|] == mended.out;
  }

  lemma CutAt(b: bytes, m: nat)
    requires 0 < m < |b| && b[m - 1] == SLASH && forall k :: m <= k < |b| - 1 ==> b[k] != SLASH
    ensures BackUp(b) == b[..m]
  {
    UpToSlashAt(b, m, |b| - 2);
  }

  lemma {:induction false} UpToSlashAt(b: bytes, m: nat, i: nat)
    requires 0 < m <= i + 1 <= |b| && b[m - 1] == SLASH && forall k :: m <= k <= i ==> b[k] != SLASH
    ensures UpToSlash(b, i) == b[..m]
    decreases i
  {
    if m < i + 1 { UpToSlashAt(b, m, i - 1); }
  }

  lemma SameFromAt(a: bytes, p: nat, b: bytes, q: nat)
    requires SameFrom(a, p, b, q)
    ensures |a| - p == |b| - q && forall k :: q <= k < |b| ==> b[k] == a[p + (k - q)]
  {
    assert |a[p..]| == |b[q..]|;
    forall k | q <= k < |b| ensures b[k] == a[p + (k - q)] { assert b[q..][k - q] == a[p..][k - q]; }
  }

  lemma SameCut(a: bytes, p: nat, b: bytes, q: nat, m: nat)
    requires SameFrom(a, p, b, q) && q < m - 1 && m < |b| && b[m - 1] == SLASH
    requires forall k :: m <= k < |b| - 1 ==> b[k] != SLASH
    ensures BackUp(a) == a[..p + (m - q)]
  {
    var n := p + (m - q);
    SameFromAt(a, p, b, q);
    forall k | n <= k < |a| - 1 ensures a[k] != SLASH { assert b[q + (k - p)] == a[k]; }
    CutAt(a, n);
  }

  lemma CutOf(b: bytes) returns (m: nat)
    requires |b| > 1 && b[0] == SLASH && b[|b| - 1] == SLASH
    ensures 0 < m < |b| && BackUp(b) == b[..m] && b[m - 1] == SLASH && forall k :: m <= k < |b| - 1 ==> b[k] != SLASH
  {
    m := |BackUp(b)|;
    BackUpEndsInSlash(b);
  }

  /** If the percent sign survives a rewind, so does the same text behind it. */
  lemma SameFromCut(a: bytes, p: nat, b: bytes, q: nat)
    requires SameFrom(a, p, b, q) && b[q] == PERCENT && b[0] == SLASH && b[|b| - 1] == SLASH
    requires q < |BackUp(b)|
    ensures SameFrom(BackUp(a), p, BackUp(b), q)
  {
    var m := CutOf(b);
    assert m - 1 != q;
    SameCut(a, p, b, q, m);
    SameFromPrefix(a, p, b, q, m - q);
  }

  lemma SameFromPrefix(a: bytes, p: nat, b: bytes, q: nat, len: nat)
    requires SameFrom(a, p, b, q) && 0 < len <= |b| - q
    ensures p + len <= |a| && SameFrom(a[..p + len], p, b[..q + len], q)
  {
    assert |a[p..]| == |b[q..]|;
    assert a[..p + len][p..] == a[p..][..len] == b[q..][..len] == b[..q + len][q..];
    assert a[..p + len][..p] == a[..p] && b[..q + len][..q] == b[..q];
  }

  lemma CutFollows(st: State, mended: State)
    requires Follows(st, mended) && st.EndsInSlash()
    ensures Follows(st.Rewind(), Forget(mended.Rewind()))
  {
    var a, b := st.out, mended.out;
    PutIntoCut(a, b);
    BackUpEndsInSlash(a);
    BackUpEndsInSlash(b);
    assert mended.lastInvalid.Some? && mended.lastInvalid.value < |BackUp(b)| ==>
        SameFrom(BackUp(a), st.lastInvalid.value, BackUp(b), mended.lastInvalid.value)
    by {
      if mended.lastInvalid.Some? && mended.lastInvalid.value < |BackUp(b)| {
        SameFromCut(a, st.lastInvalid.value, b, mended.lastInvalid.value);
      }
    }
  }

  lemma SameRepair(s: bytes, next: nat, a: bytes, p: nat, b: bytes, q: nat)
    requires next <= |s| && SameFrom(a, p, b, q)
    requires |a| > p + 1
    ensures |a| - p == |b| - q && (|a| <= p + 3 ==> NeedsRepair(s, next, p, a) == NeedsRepair(s, next, q, b))
    ensures SameFrom(Repaired(a, p), p, Repaired(b, q), q)
  {
    assert forall k :: p <= k < |a| ==> a[k] == a[p..][k - p] == b[q..][k - p] == b[q + (k - p)];
    assert a[p + 1..] == a[p..][1..] && b[q + 1..] == b[q..][1..];
    assert Repaired(a, p)[p..] == [a[p]] + [0x32, 0x35] + a[p + 1..];
    assert Repaired(b, q)[q..] == [b[q]] + [0x32, 0x35] + b[q + 1..];
    assert Repaired(a, p)[..p] == a[..p] && Repaired(b, q)[..q] == b[..q];
  }

  lemma SameFromIsPutInto(a: bytes, p: nat, b: bytes, q: nat)
    requires SameFrom(a, p, b, q)
    ensures PutInto(a, b) && a[|a| - 1] == b[|b| - 1]
  {
    PutBeforeText(a[..p], b[..q], a[p..]);
    assert a == a[..p] + a[p..] && b == b[..q] + b[q..];
    assert a[|a| - 1] == a[p..][|a| - 1 - p] && b[|b| - 1] == b[q..][|b| - 1 - q];
  }

  /** While the percent sign is there, both repair it or both do not. */
  lemma FreshFollows(s: bytes, next: nat, v: byte, st: State, mended: State)
    requires next <= |s| && Follows(st, mended) && mended.lastInvalid.Some?
    ensures Follows(PushUnescaped(s, next, v, st), PushUnescaped(s, next, v, mended))
  {
    var p, q := st.lastInvalid.value, mended.lastInvalid.value;
    var a, b := st.out + [v], mended.out + [v];
    PushFollows(st, mended, [v]);
    SameRepair(s, next, a, p, b, q);
    SameFromIsPutInto(Repaired(a, p), p, Repaired(b, q), q);
    UnescapedIsFresh(s, next, v, mended);
  }

  /** A stale repair puts its two characters in. */
  lemma StaleFollows(s: bytes, next: nat, v: byte, st: State, mended: State)
    requires next <= |s| && Follows(st, mended) && mended.lastInvalid == None
    ensures Follows(PushUnescaped(s, next, v, st), PushUnescaped(s, next, v, mended))
  {
    var a := st.out + [v];
    PushFollows(st, mended, [v]);
    if st.lastInvalid.Some? && st.lastInvalid.value >= |a| - 3 && NeedsRepair(s, next, st.lastInvalid.value, a) {
      var p := st.lastInvalid.value;
      assert a == a[..p + 1] + a[p + 1..];
      PutBetween(a[..p + 1], a[p + 1..], mended.out + [v]);
      RepairedText(a, p);
    }
  }

  lemma PercentFollows(s: bytes, i: nat, st: State, mended: State)
    requires i < |s| && Follows(st, mended) && s[i] == PERCENT
    ensures StepPercent(s, i, st).0 == StepPercent(s, i, mended).0
    ensures Follows(StepPercent(s, i, st).1, StepPercent(s, i, mended).1)
  {
    if !IsEscapeAt(s, i) {
      MalformedFollows(st, mended);
    } else {
      var v := EscapeValue(s, i);
      if !PathChar(v).Unescape? { PushFollows(st, mended, [PERCENT, s[i + 1], s[i + 2]]); }
      else if mended.lastInvalid.Some? { FreshFollows(s, i + 3, v, st, mended); }
      else { StaleFollows(s, i + 3, v, st, mended); }
    }
  }

  lemma DotFollows(s: bytes, i: nat, st: State, mended: State)
    requires i < |s| && Follows(st, mended) && IsDot(s, i) > 0
    ensures Step(s, i, st).0 == MendedStep(s, i, mended).0 && Follows(Step(s, i, st).1, MendedStep(s, i, mended).1)
  {
    var d := ClassifyAfterDot(s, i + IsDot(s, i));
    if !st.EndsInSlash() || d.NotADirectory? { PushFollows(st, mended, [DOT]); }
    else if d.DirectoryUp? { CutFollows(st, mended); }
  }

  lemma StepFollows(s: bytes, i: nat, st: State, mended: State)
    requires i < |s| && Follows(st, mended)
    ensures Step(s, i, st).0 == MendedStep(s, i, mended).0 && Follows(Step(s, i, st).1, MendedStep(s, i, mended).1)
  {
    if IsDot(s, i) > 0 { DotFollows(s, i, st, mended); }
    else if s[i] == PERCENT { PercentFollows(s, i, st, mended); }
    else if s[i] == BACKSLASH { PushFollows(st, mended, [SLASH]); }
    else if PathChar(s[i]).Invalid? || PathChar(s[i]).Escape? { PushFollows(st, mended, Escaped(s[i])); }
    else { PushFollows(st, mended, [s[i]]); }
  }

  lemma {:induction false} ScanFollows(s: bytes, i: nat, st: State, mended: State)
    requires i <= |s| && Follows(st, mended)
    ensures Follows(Scan(s, i, st), MendedScan(s, i, mended))
    decreases |s| - i
  {
    if i < |s| {
      StepFollows(s, i, st, mended);
      ScanFollows(s, Step(s, i, st).0, Step(s, i, st).1, MendedStep(s, i, mended).1);
    }
  }

  /** For every path: the program writes what the mended scanner writes, with the two characters of a repair put in here
      and there, and the two agree on success. */
  lemma OutputIsMendedAndMore(s: bytes)
    ensures var r, mended := CanonicalPath(s), MendedPath(s); PutInto(r.out, mended.out) && r.ok == mended.ok
  {
    NothingPutIn([SLASH]);
    if |s| > 0 {
      var i := FirstSlash(s);
      ScanFollows(s, i, Start([SLASH]), Start([SLASH]));
    }
  }

  // ---- Read off the input ------------------------------------------------------

  function ForgetTrace(t: Trace): Trace {
    if t.malformed.Some? && t.malformed.value >= t.len then t.(malformed := None) else t
  }

  function MendedTraceScan(s: bytes, i: nat, t: Trace): Trace
    requires i <= |s|
    decreases |s| - i
  {
    if i == |s| then t else var (j, next) := TraceStep(s, i, t); MendedTraceScan(s, j, ForgetTrace(next))
  }

  /** The trace of the mended scanner, which does not build the output either. */
  function MendedTraceOf(s: bytes): Trace { MendedTraceScan(s, if |s| > 0 && IsUrlSlash(s[0]) then 1 else 0, ROOT) }

  /** The program writes more than the mended scanner: a stale repair is made, and not removed by a later "..". */
  predicate KeepsStaleRepair(s: bytes) { TraceOf(s).len != MendedTraceOf(s).len }

  lemma {:induction false} MendedScanTraced(s: bytes, i: nat, st: State, t: Trace)
    requires i <= |s| && Inv(s, i, st) && IsFresh(st) && Traces(st, t)
    ensures Traces(MendedScan(s, i, st), MendedTraceScan(s, i, t))
    decreases |s| - i
  {
    if i < |s| {
      StepTraced(s, i, st, t);
      MendedStepKeeps(s, i, st);
      var (j, next) := MendedStep(s, i, st);
      MendedScanTraced(s, j, next, ForgetTrace(TraceStep(s, i, t).1));
    }
  }

  lemma RootIsTraced(s: bytes)
    ensures Traces(Start([SLASH]), ROOT) && Inv(s, if |s| > 0 && IsUrlSlash(s[0]) then 1 else 0, Start([SLASH]))
  {
    if |s| > 0 { var i := FirstSlash(s); }
  }

  /** For every path: the program writes what the mended scanner writes if and only if no stale repair is kept. */
  lemma OutputIsMendedIff(s: bytes)
    ensures CanonicalPath(s).out == MendedPath(s).out <==> !KeepsStaleRepair(s)
  {
    TraceIsExact(s);
    RootIsTraced(s);
    MendedScanTraced(s, if |s| > 0 && IsUrlSlash(s[0]) then 1 else 0, Start([SLASH]), ROOT);
    OutputIsMendedAndMore(s);
    PutIntoLength(CanonicalPath(s).out, MendedPath(s).out);
  }

  // ---- When nothing stale can be met ----------------------------------------

  predicate MalformedIn(s: bytes, k: nat) { k < |s| && s[k] == PERCENT && !IsEscapeAt(s, k) }

  /** A ".." segment, written in any way. */
  predicate UpAt(s: bytes, i: nat)
    requires i < |s|
  {
    (i == 0 || IsUrlSlash(s[i - 1])) && IsDot(s, i) > 0 && ClassifyAfterDot(s, i + IsDot(s, i)).DirectoryUp?
  }

  /** Behind the first malformed percent sign there is no "..". */
  predicate NoUpAfterMalformed(s: bytes) { forall k, i :: 0 <= k < i < |s| && MalformedIn(s, k) ==> !UpAt(s, i) }

  /** The output ends in a slash only where a segment begins. */
  predicate AtSegment(s: bytes, i: nat, st: State)
    requires i <= |s|
  {
    st.EndsInSlash() ==> i == 0 || i == |s| || IsUrlSlash(s[i - 1])
  }

  predicate MetMalformed(s: bytes, i: nat) { exists k :: 0 <= k < i && MalformedIn(s, k) }

  lemma StepAtSegment(s: bytes, i: nat, st: State)
    requires i < |s| && AtSegment(s, i, st)
    ensures AtSegment(s, Step(s, i, st).0, Step(s, i, st).1)
  {
    if s[i] == PERCENT && IsDot(s, i) == 0 { PercentEnd(s, i, st); }
  }

  lemma PercentEnd(s: bytes, i: nat, st: State)
    requires i < |s| && s[i] == PERCENT
    ensures !StepPercent(s, i, st).1.EndsInSlash()
  {
    if IsEscapeAt(s, i) && PathChar(EscapeValue(s, i)).Unescape? { UnescapedEnd(s, i + 3, EscapeValue(s, i), st); }
  }

  lemma UnescapedEnd(s: bytes, next: nat, v: byte, st: State)
    requires next <= |s| && PathChar(v).Unescape?
    ensures !PushUnescaped(s, next, v, st).EndsInSlash()
  {
    var out := st.out + [v];
    if st.lastInvalid.Some? && st.lastInvalid.value >= |out| - 3 && NeedsRepair(s, next, st.lastInvalid.value, out) {
      RepairedText(out, st.lastInvalid.value);
    }
  }

  lemma NothingForgotten(s: bytes, i: nat, st: State)
    requires i < |s| && NoUpAfterMalformed(s) && IsFresh(st) && AtSegment(s, i, st)
    requires st.lastInvalid.Some? ==> MetMalformed(s, i)
    ensures MendedStep(s, i, st) == Step(s, i, st)
    ensures var (j, next) := Step(s, i, st); next.lastInvalid.Some? ==> MetMalformed(s, j)
  {
    if st.lastInvalid.Some? {
      var k :| 0 <= k < i && MalformedIn(s, k);
      assert !UpAt(s, i);
    }
    assert MalformedIn(s, i) <==> s[i] == PERCENT && !IsEscapeAt(s, i);
  }

  lemma {:induction false} ScanIsMended(s: bytes, i: nat, st: State)
    requires i <= |s| && NoUpAfterMalformed(s) && Inv(s, i, st) && IsFresh(st) && AtSegment(s, i, st)
    requires st.lastInvalid.Some? ==> MetMalformed(s, i)
    ensures Scan(s, i, st) == MendedScan(s, i, st)
    decreases |s| - i
  {
    if i < |s| {
      NothingForgotten(s, i, st);
      StepAtSegment(s, i, st);
      MendedStepKeeps(s, i, st);
      ScanIsMended(s, Step(s, i, st).0, Step(s, i, st).1);
    }
  }

  /** Without a ".." behind a malformed percent sign the program is the mended scanner. */
  lemma PathIsMended(s: bytes)
    requires NoUpAfterMalformed(s)
    ensures CanonicalPath(s) == MendedPath(s)
  {
    if |s| > 0 {
      var i := FirstSlash(s);
      ScanIsMended(s, i, Start([SLASH]));
    }
  }
}
