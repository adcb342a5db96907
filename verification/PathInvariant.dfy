/**
 What every step of the path scanner keeps: the alphabet of the output, the state of every percent sign in it,
 and the absence of dot segments.
 */
module PathInvariant {
  import opened Bytes
  import opened PathSpec

  // ---- The text of a canonical path ----------------------------------------

  predicate IsOutChar(c: byte) { !IsSpecial(c) || c == DOT || c == PERCENT }

  predicate CleanChars(out: bytes) { forall k :: 0 <= k < |out| ==> IsOutChar(out[k]) }

  /** A value that stays escaped in the output. The escaped NUL stays too, but not in a path that is ok. */
  predicate IsKeptValue(v: byte, ok: bool) { !PathChar(v).Unescape? && v != DOT && (ok ==> v != 0) }

  predicate DotSegmentAt(out: bytes, k: nat)
    requires k < |out|
  {
    && out[k] == SLASH
    && (|| (k + 2 < |out| && out[k + 1] == DOT && out[k + 2] == SLASH)
        || (k + 3 < |out| && out[k + 1] == DOT && out[k + 2] == DOT && out[k + 3] == SLASH))
  }

  predicate EndsInDot(out: bytes) { |out| >= 2 && out[|out| - 2] == SLASH && out[|out| - 1] == DOT }

  predicate EndsInDotDot(out: bytes) {
    |out| >= 3 && out[|out| - 3] == SLASH && out[|out| - 2] == DOT && out[|out| - 1] == DOT
  }

  /** No segment that a slash has ended is "." or "..". */
  predicate NoClosedDotSegment(out: bytes) { forall k :: 0 <= k < |out| ==> !DotSegmentAt(out, k) }

  /** No segment at all is "." or "..". */
  predicate NoDotSegment(out: bytes) { NoClosedDotSegment(out) && !EndsInDot(out) && !EndsInDotDot(out) }

  /** The escape at k has been torn: it is "%X2" with X from 3 to 7, so it decodes to 2, B, R, b or r. */
  predicate TornAt(out: bytes, k: nat) {
    && IsEscapeAt(out, k) && out[k] == PERCENT
    && 3 <= HexCharToValue(out[k + 1]) <= 7 && out[k + 2] == 0x32
  }

  // ---- The invariant -------------------------------------------------------

  predicate PercentOk(out: bytes, k: nat, last: Option<nat>, torn: set<nat>, ok: bool)
    requires k < |out|
  {
    if k + 2 < |out| then IsEscapeAt(out, k) ==> IsKeptValue(EscapeValue(out, k), ok) || k in torn
    else last == Some(k) || (k + 1 < |out| && !IsHexChar(out[k + 1]))
  }

  predicate PercentsOk(out: bytes, last: Option<nat>, torn: set<nat>, ok: bool) {
    forall k :: 0 <= k < |out| && out[k] == PERCENT ==> PercentOk(out, k, last, torn, ok)
  }

  predicate TornOk(out: bytes, torn: set<nat>) { forall k :: k in torn ==> TornAt(out, k) }

  /** A malformed percent sign at the very end of the output cannot be completed by unread literal text. */
  predicate PendingOk(s: bytes, i: nat, out: bytes, last: Option<nat>)
    requires i <= |s|
  {
    last.Some? && last.value < |out| && out[last.value] == PERCENT ==>
      && (last.value + 1 == |out| ==> !(i + 2 <= |s| && IsHexChar(s[i]) && IsHexChar(s[i + 1])))
      && (last.value + 2 == |out| && IsHexChar(out[last.value + 1]) ==> !(i < |s| && IsHexChar(s[i])))
  }

  /** If the output ends in "/." or "/..", the unread input makes more than a dot segment of it. */
  predicate DotsOk(s: bytes, i: nat, out: bytes)
    requires i <= |s|
  {
    && NoClosedDotSegment(out)
    && (EndsInDot(out) ==> ClassifyAfterDot(s, i).NotADirectory?)
    && (EndsInDotDot(out) ==> i < |s| && !IsUrlSlash(s[i]))
  }

  predicate Inv(s: bytes, i: nat, st: State)
    requires i <= |s|
  {
    && |st.out| > 0 && st.out[0] == SLASH
    && CleanChars(st.out)
    && PercentsOk(st.out, st.lastInvalid, st.torn, st.ok)
    && TornOk(st.out, st.torn)
    && PendingOk(s, i, st.out, st.lastInvalid)
    && DotsOk(s, i, st.out)
  }

  // ---- Each way to change the output ---------------------------------------

  /** A shorter output that ends in a slash, and any position in the input. */
  lemma CutKeeps(s: bytes, i: nat, st: State, j: nat, kept: bytes)
    requires i <= |s| && j <= |s| && Inv(s, i, st)
    requires 0 < |kept| && kept <= st.out && kept[|kept| - 1] == SLASH
    ensures Inv(s, j, st.(out := kept, torn := set t | t in st.torn && t < |kept|))
  {
    var torn := set t | t in st.torn && t < |kept|;
    forall k | 0 <= k < |kept| ensures !DotSegmentAt(kept, k) {
      assert !DotSegmentAt(st.out, k);
    }
    forall k | 0 <= k < |kept| && kept[k] == PERCENT ensures PercentOk(kept, k, st.lastInvalid, torn, st.ok) {
      assert PercentOk(st.out, k, st.lastInvalid, st.torn, st.ok);
    }
    forall k | k in torn ensures TornAt(kept, k) {
      assert TornAt(st.out, k);
      assert kept[k + 1] == SLASH || k + 2 < |kept|;
    }
  }

  lemma BackUpEndsInSlash(out: bytes)
    requires |out| > 0 && out[0] == SLASH && out[|out| - 1] == SLASH
    ensures var kept := BackUp(out); kept[|kept| - 1] == SLASH
  {
  }

  /** One character that is not a percent sign. */
  lemma PushKeeps(s: bytes, i: nat, st: State, j: nat, c: byte)
    requires i < j <= |s| && Inv(s, i, st)
    requires IsOutChar(c) && c != PERCENT
    requires IsHexChar(c) ==> s[i] == c && j == i + 1
    requires c == SLASH ==> !EndsInDot(st.out) && !EndsInDotDot(st.out)
    requires c == DOT ==> st.EndsInSlash() ==> ClassifyAfterDot(s, j).NotADirectory?
    requires c == DOT ==> EndsInDot(st.out) ==> j < |s| && !IsUrlSlash(s[j])
    ensures Inv(s, j, st.Push([c]))
  {
    var out := st.out + [c];
    forall k | 0 <= k < |out| ensures !DotSegmentAt(out, k) {
      if k < |st.out| { assert !DotSegmentAt(st.out, k); }
    }
    forall k | 0 <= k < |out| && out[k] == PERCENT ensures PercentOk(out, k, st.lastInvalid, st.torn, st.ok) {
      assert PercentOk(st.out, k, st.lastInvalid, st.torn, st.ok);
    }
    assert TornOk(out, st.torn) by {
      forall k | k in st.torn ensures TornAt(out, k) { assert TornAt(st.out, k); }
    }
  }

  lemma EscapePercents(out: bytes, e: bytes, last: Option<nat>, torn: set<nat>, was: bool, ok: bool)
    requires PercentsOk(out, last, torn, was) && (ok ==> was)
    requires |e| == 3 && e[0] == PERCENT && IsEscapeAt(e, 0) && IsKeptValue(EscapeValue(e, 0), ok)
    ensures PercentsOk(out + e, last, torn, ok)
  {
    var n := |out|;
    var longer := out + e;
    assert longer[n] == PERCENT && longer[n + 1] == e[1] && longer[n + 2] == e[2];
    forall k | 0 <= k < |longer| && longer[k] == PERCENT ensures PercentOk(longer, k, last, torn, ok) {
      if k < n { assert PercentOk(out, k, last, torn, was); }
    }
  }

  /** An escape that stays. */
  lemma PushEscapeKeeps(s: bytes, i: nat, st: State, j: nat, e: bytes, ok: bool)
    requires i <= j <= |s| && Inv(s, i, st) && (ok ==> st.ok)
    requires |e| == 3 && e[0] == PERCENT && IsEscapeAt(e, 0) && IsKeptValue(EscapeValue(e, 0), ok)
    ensures Inv(s, j, st.Push(e).(ok := ok))
  {
    var out := st.out + e;
    var n := |st.out|;
    assert CleanChars(out) by {
      forall k | 0 <= k < |out| ensures IsOutChar(out[k]) {
        if k >= n { assert out[k] == e[k - n]; }
      }
    }
    assert DotsOk(s, j, out) by {
      forall k | 0 <= k < |out| ensures !DotSegmentAt(out, k) {
        if k < n { assert !DotSegmentAt(st.out, k); }
      }
    }
    EscapePercents(st.out, e, st.lastInvalid, st.torn, st.ok, ok);
    assert TornOk(out, st.torn) by {
      forall k | k in st.torn ensures TornAt(out, k) { assert TornAt(st.out, k); }
    }
  }

  lemma PushMalformedKeeps(s: bytes, i: nat, st: State)
    requires i < |s| && Inv(s, i, st) && s[i] == PERCENT && !IsEscapeAt(s, i)
    ensures Inv(s, i + 1, st.(out := st.out + [PERCENT], lastInvalid := Some(|st.out|)))
  {
    var out := st.out + [PERCENT];
    forall k | 0 <= k < |out| ensures !DotSegmentAt(out, k) {
      if k < |st.out| { assert !DotSegmentAt(st.out, k); }
    }
    forall k | 0 <= k < |out| && out[k] == PERCENT ensures PercentOk(out, k, Some(|st.out|), st.torn, st.ok) {
      if k < |st.out| { assert PercentOk(st.out, k, st.lastInvalid, st.torn, st.ok); }
    }
    forall k | k in st.torn ensures TornAt(out, k) { assert TornAt(st.out, k); }
  }

  /** An unescaped character that no repair follows. */
  lemma PushUnescapedKeeps(s: bytes, i: nat, st: State, j: nat, v: byte)
    requires i < j <= |s| && Inv(s, i, st) && PathChar(v).Unescape?
    requires (st.lastInvalid.Some? && st.lastInvalid.value >= |st.out| - 2) ==>
               !NeedsRepair(s, j, st.lastInvalid.value, st.out + [v])
    ensures Inv(s, j, st.Push([v]))
  {
    var out := st.out + [v];
    var n := |st.out|;
    forall k | 0 <= k < |out| ensures !DotSegmentAt(out, k) {
      if k < n { assert !DotSegmentAt(st.out, k); }
    }
    forall k | 0 <= k < |out| && out[k] == PERCENT ensures PercentOk(out, k, st.lastInvalid, st.torn, st.ok) {
      assert k < n && PercentOk(st.out, k, st.lastInvalid, st.torn, st.ok);
    }
    forall k | k in st.torn ensures TornAt(out, k) { assert TornAt(st.out, k); }
  }

  // ---- The repair ----------------------------------------------------------

  /** Two hexadecimal digits at the end of a text with the repair put before them. */
  lemma RepairedText(out: bytes, p: nat)
    requires p + 1 < |out| <= p + 3
    ensures var r := Repaired(out, p);
      && |r| == |out| + 2 && r[p + 1] == 0x32 && r[p + 2] == 0x35 && r[p + 3] == out[p + 1]
      && (|out| == p + 3 ==> r[p + 4] == out[p + 2])
      && forall k :: 0 <= k <= p ==> r[k] == out[k]
  {
  }

  lemma RepairPercents(out: bytes, v: byte, p: nat, torn: set<nat>, ok: bool)
    requires PercentsOk(out, Some(p), torn, ok) && PathChar(v).Unescape? && IsHexChar(v)
    requires p < |out| <= p + 2 && (p + 1 < |out| ==> IsHexChar(out[p + 1]))
    ensures var torn' := if Tears(out + [v], p) then torn + {p - 1} else torn;
            PercentsOk(Repaired(out + [v], p), Some(p), torn', ok)
  {
    var torn' := if Tears(out + [v], p) then torn + {p - 1} else torn;
    var r := Repaired(out + [v], p);
    RepairedText(out + [v], p);
    forall k | 0 <= k < |r| && r[k] == PERCENT ensures PercentOk(r, k, Some(p), torn', ok) {
      assert k <= p;
      assert out[k] == PERCENT && PercentOk(out, k, Some(p), torn, ok);
      if k == p - 1 && IsHexChar(r[p]) {
        assert r[k + 1] == out[p] && r[k + 2] == 0x32;
        assert EscapeValue(r, k) == HexCharToValue(out[p]) * 16 + 2;
      }
    }
  }

  lemma RepairTorn(out: bytes, v: byte, p: nat, torn: set<nat>)
    requires TornOk(out, torn) && p < |out| <= p + 2
    ensures var torn' := if Tears(out + [v], p) then torn + {p - 1} else torn;
            TornOk(Repaired(out + [v], p), torn')
  {
    var torn' := if Tears(out + [v], p) then torn + {p - 1} else torn;
    var r := Repaired(out + [v], p);
    RepairedText(out + [v], p);
    forall k | k in torn' ensures TornAt(r, k) {
      if k in torn { assert TornAt(out, k); }
    }
  }

  /** The characters and the dot segments of a repaired text. */
  lemma RepairChars(out: bytes, v: byte, p: nat)
    requires CleanChars(out) && NoClosedDotSegment(out) && IsHexChar(v)
    requires p < |out| <= p + 2 && (p + 1 < |out| ==> IsHexChar(out[p + 1]))
    ensures var r := Repaired(out + [v], p);
      CleanChars(r) && NoClosedDotSegment(r) && !EndsInDot(r) && !EndsInDotDot(r)
  {
    var r := Repaired(out + [v], p);
    RepairedText(out + [v], p);
    forall k | 0 <= k < |r| ensures IsOutChar(r[k]) && !DotSegmentAt(r, k) {
      if k <= p { assert r[k] == out[k] && !DotSegmentAt(out, k); }
    }
  }

  lemma RepairKeeps(s: bytes, i: nat, st: State, j: nat, v: byte)
    requires i < j <= |s| && Inv(s, i, st) && PathChar(v).Unescape?
    requires st.lastInvalid.Some? && st.lastInvalid.value >= |st.out| - 2
    requires NeedsRepair(s, j, st.lastInvalid.value, st.out + [v])
    ensures Inv(s, j, PushUnescaped(s, j, v, st))
  {
    var p := st.lastInvalid.value;
    var longer := st.out + [v];
    assert p < |st.out| <= p + 2 && IsHexChar(longer[p + 1]) && IsHexChar(v);
    var next := PushUnescaped(s, j, v, st);
    assert next.out == Repaired(longer, p);
    assert CleanChars(next.out) && NoClosedDotSegment(next.out) && !EndsInDot(next.out) && !EndsInDotDot(next.out) by {
      RepairChars(st.out, v, p);
    }
    assert PercentsOk(next.out, next.lastInvalid, next.torn, next.ok) by {
      RepairPercents(st.out, v, p, st.torn, st.ok);
    }
    assert TornOk(next.out, next.torn) by {
      RepairTorn(st.out, v, p, st.torn);
    }
    RepairedText(longer, p);
  }

  // ---- Every step ----------------------------------------------------------

  lemma DotStepKeeps(s: bytes, i: nat, st: State)
    requires i < |s| && Inv(s, i, st) && IsDot(s, i) > 0
    ensures var (j, next) := Step(s, i, st); Inv(s, j, next)
  {
    var after := i + IsDot(s, i);
    var (j, next) := Step(s, i, st);
    if st.EndsInSlash() && !ClassifyAfterDot(s, after).NotADirectory? {
      if ClassifyAfterDot(s, after).DirectoryUp? {
        BackUpEndsInSlash(st.out);
        CutKeeps(s, i, st, j, BackUp(st.out));
      } else {
        CutKeeps(s, i, st, j, st.out);
        assert (set t | t in st.torn && t < |st.out|) == st.torn by {
          forall t | t in st.torn ensures t < |st.out| { assert TornAt(st.out, t); }
        }
      }
    } else {
      PushKeeps(s, i, st, j, DOT);
    }
  }

  lemma EscapedStays(c: byte)
    requires PathChar(c).Invalid? || PathChar(c).Escape?
    ensures IsKeptValue(EscapeValue(Escaped(c), 0), PathChar(c).Escape?)
  {
  }

  lemma PercentStepKeeps(s: bytes, i: nat, st: State)
    requires i < |s| && Inv(s, i, st) && IsDot(s, i) == 0 && s[i] == PERCENT
    ensures var (j, next) := Step(s, i, st); Inv(s, j, next)
  {
    if !IsEscapeAt(s, i) {
      PushMalformedKeeps(s, i, st);
    } else {
      var v := EscapeValue(s, i);
      var (j, next) := Step(s, i, st);
      if !PathChar(v).Unescape? {
        var e := [PERCENT, s[i + 1], s[i + 2]];
        assert EscapeValue(e, 0) == v;
        PushEscapeKeeps(s, i, st, j, e, next.ok);
      } else if st.lastInvalid.Some? && st.lastInvalid.value >= |st.out| - 2
                && NeedsRepair(s, j, st.lastInvalid.value, st.out + [v]) {
        RepairKeeps(s, i, st, j, v);
      } else {
        PushUnescapedKeeps(s, i, st, j, v);
        assert next == st.Push([v]);
      }
    }
  }

  lemma StepKeeps(s: bytes, i: nat, st: State)
    requires i < |s| && Inv(s, i, st)
    ensures var (j, next) := Step(s, i, st); Inv(s, j, next)
  {
    var c := s[i];
    var (j, next) := Step(s, i, st);
    if IsDot(s, i) > 0 {
      DotStepKeeps(s, i, st);
    } else if c == BACKSLASH {
      PushKeeps(s, i, st, j, SLASH);
    } else if c == PERCENT {
      PercentStepKeeps(s, i, st);
    } else if PathChar(c).Invalid? || PathChar(c).Escape? {
      EscapedStays(c);
      PushEscapeKeeps(s, i, st, j, Escaped(c), next.ok);
    } else {
      PushKeeps(s, i, st, j, c);
    }
  }

  lemma {:induction false} ScanKeeps(s: bytes, i: nat, st: State)
    requires i <= |s| && Inv(s, i, st)
    ensures Inv(s, |s|, Scan(s, i, st))
    decreases |s| - i
  {
    if i < |s| {
      StepKeeps(s, i, st);
      var (j, next) := Step(s, i, st);
      ScanKeeps(s, j, next);
    }
  }

  /** The scanner's state once the leading slash is written, and the input position it stands at. */
  lemma FirstSlash(s: bytes) returns (i: nat)
    requires |s| > 0
    ensures i <= |s| && CanonicalPath(s) == Scan(s, i, Start([SLASH])) && Inv(s, i, Start([SLASH]))
    ensures i == if IsUrlSlash(s[0]) then 1 else 0
  {
    if IsUrlSlash(s[0]) {
      i := 1;
      assert [] + [SLASH] == [SLASH];
      assert Step(s, 0, Start([])) == (1, Start([SLASH]));
    } else {
      i := 0;
    }
  }
}
