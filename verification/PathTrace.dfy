/**
 A trace of a path that is read off its input: the length of the output, where it has slashes, where the last malformed
 percent sign was written, and where escapes begin. The output itself is not built. The trace tells which escapes the
 repair of nested escapes will tear, and which escaped NULs will be left.
 */
module PathTraces {
  import opened Bytes
  import opened PathSpec
  import opened PathInvariant

  /** The escapes that do not begin just before p. */
  function NotAt(escapes: set<nat>, p: nat): set<nat> { set k | k in escapes && k + 1 != p }

  /**
   len and slashes are the length of the output and the positions of its slashes, endsHex says whether it ends in a
   hexadecimal digit, and malformed is where the last malformed percent sign was written. Escapes are noted by where
   they begin: high are those of the characters from 0x30 to 0x7F, nuls those of NUL, torn those that were torn.
   */
  datatype Trace = Trace(
    len: nat,
    slashes: seq<nat>,
    endsHex: bool,
    malformed: Option<nat>,
    high: set<nat>,
    nuls: set<nat>,
    torn: set<nat>)
  {
    predicate EndsInSlash() { |slashes| > 0 && slashes[|slashes| - 1] + 1 == len }

    /** One character that is written as it is. */
    function Char(c: byte): Trace {
      this.(len := len + 1, endsHex := IsHexChar(c), slashes := if c == SLASH then slashes + [len] else slashes)
    }

    /** The escape of a character. */
    function Escape(v: byte): Trace {
      this.(
        len := len + 3,
        endsHex := true,
        high := if 0x30 <= v < 0x80 then high + {len} else high,
        nuls := if v == 0 then nuls + {len} else nuls)
    }

    function Malformed(): Trace { this.(len := len + 1, endsHex := false, malformed := Some(len)) }

    /** What is left when the output is cut behind the last slash but one. */
    function Cut(): Trace
      requires |slashes| > 0
    {
      var kept := if |slashes| > 1 then slashes[..|slashes| - 1] else slashes;
      var n := kept[|kept| - 1] + 1;
      this.(
        len := n,
        slashes := kept,
        endsHex := false,
        high := (set k | k in high && k < n),
        nuls := (set k | k in nuls && k < n),
        torn := (set k | k in torn && k < n))
    }

    /** A character that an escape stood for. If it completes two hexadecimal digits behind the malformed percent sign,
        or next is the second of them, two characters are put in, and an escape that begins just before is torn. */
    function Unescaped(v: byte, next: Option<byte>): Trace {
      var p := malformed.GetOr(0);
      var digits :=
        && malformed.Some? && IsHexChar(v)
        && ((len == p + 2 && endsHex) || (len == p + 1 && next.Some? && IsHexChar(next.value)));
      if digits then
        this.(
          len := len + 3,
          endsHex := true,
          nuls := NotAt(nuls, p),
          torn := if p > 0 && p - 1 in high then torn + {p - 1} else torn)
      else Char(v)
    }
  }

  /** One round of the scanner. */
  function TraceStep(s: bytes, i: nat, t: Trace): (r: (nat, Trace))
    requires i < |s|
    ensures i < r.0 <= |s|
  {
    var c := s[i];
    if IsDot(s, i) > 0 then
      var after := i + IsDot(s, i);
      if !t.EndsInSlash() then (after, t.Char(DOT))
      else
        match ClassifyAfterDot(s, after)
        case NotADirectory => (after, t.Char(DOT))
        case DirectoryCur(consumed) => (after + consumed, t)
        case DirectoryUp(consumed) => (after + consumed, t.Cut())
    else if c == BACKSLASH then (i + 1, t.Char(SLASH))
    else if c == PERCENT then
      if !IsEscapeAt(s, i) then (i + 1, t.Malformed())
      else
        var v := EscapeValue(s, i);
        (i + 3, if PathChar(v).Unescape? then t.Unescaped(v, if i + 3 < |s| then Some(s[i + 3]) else None) else t.Escape(v))
    else if PathChar(c).Invalid? || PathChar(c).Escape? then (i + 1, t.Escape(c))
    else (i + 1, t.Char(c))
  }

  function TraceScan(s: bytes, i: nat, t: Trace): Trace
    requires i <= |s|
    decreases |s| - i
  {
    if i == |s| then t else var (j, next) := TraceStep(s, i, t); TraceScan(s, j, next)
  }

  const ROOT := Trace(1, [0], false, None, {}, {}, {})

  /** The trace of a whole path, whose leading slash is made up where it is missing. */
  function TraceOf(s: bytes): Trace { TraceScan(s, if |s| > 0 && IsUrlSlash(s[0]) then 1 else 0, ROOT) }

  // ---- The trace is that of the scanner --------------------------------------

  predicate HighAt(out: bytes, k: nat) {
    IsEscapeAt(out, k) && out[k] == PERCENT && 3 <= HexCharToValue(out[k + 1]) <= 7
  }

  predicate NulAt(out: bytes, k: nat) { IsEscapeAt(out, k) && out[k] == PERCENT && EscapeValue(out, k) == 0 }

  predicate SlashesOf(out: bytes, slashes: seq<nat>) {
    && (forall j, k :: 0 <= j < k < |slashes| ==> slashes[j] < slashes[k])
    && (forall j :: 0 <= j < |slashes| ==> slashes[j] < |out| && out[slashes[j]] == SLASH)
    && forall k :: 0 <= k < |out| && out[k] == SLASH ==> k in slashes
  }

  ghost predicate EscapesOf(out: bytes, t: Trace) {
    && (forall k: nat :: k in t.high <==> HighAt(out, k))
    && forall k: nat :: k in t.nuls <==> NulAt(out, k)
  }

  predicate EndsHex(out: bytes) { |out| > 0 && IsHexChar(out[|out| - 1]) }

  ghost predicate Traces(st: State, t: Trace) {
    && t.len == |st.out| && t.endsHex == EndsHex(st.out) && t.malformed == st.lastInvalid && t.torn == st.torn
    && SlashesOf(st.out, t.slashes) && EscapesOf(st.out, t)
  }

  lemma TracesSlash(st: State, t: Trace)
    requires Traces(st, t)
    ensures t.EndsInSlash() == st.EndsInSlash()
  {
    if st.EndsInSlash() {
      var j :| 0 <= j < |t.slashes| && t.slashes[j] == |st.out| - 1;
      assert j == |t.slashes| - 1;
    }
  }

  /** A text behind another one completes no escape of it. */
  predicate CompletesNone(out: bytes, c: byte) {
    IsHexChar(c) && |out| >= 2 && out[|out| - 2] == PERCENT ==> !EndsHex(out)
  }

  lemma SameEscape(out: bytes, longer: bytes, k: nat)
    requires k + 3 <= |out| && k + 3 <= |longer| && longer[k..k + 3] == out[k..k + 3]
    ensures HighAt(longer, k) == HighAt(out, k) && NulAt(longer, k) == NulAt(out, k)
  {
    assert longer[k] == longer[k..k + 3][0] && longer[k + 1] == longer[k..k + 3][1] && longer[k + 2] == longer[k..k + 3][2];
    assert out[k] == out[k..k + 3][0] && out[k + 1] == out[k..k + 3][1] && out[k + 2] == out[k..k + 3][2];
  }

  lemma CharEscapes(out: bytes, c: byte, k: nat)
    requires c != PERCENT && CompletesNone(out, c)
    ensures HighAt(out + [c], k) == HighAt(out, k) && NulAt(out + [c], k) == NulAt(out, k)
  {
    if k + 3 <= |out| {
      assert (out + [c])[k..k + 3] == out[k..k + 3];
      SameEscape(out, out + [c], k);
    }
  }

  lemma CharSlashes(out: bytes, slashes: seq<nat>, c: byte)
    requires SlashesOf(out, slashes)
    ensures SlashesOf(out + [c], if c == SLASH then slashes + [|out|] else slashes)
  {
    var longer := if c == SLASH then slashes + [|out|] else slashes;
    forall k | 0 <= k < |out + [c]| && (out + [c])[k] == SLASH ensures k in longer {
      if k == |out| { assert longer[|slashes|] == k; } else { assert out[k] == SLASH && k in slashes; }
    }
  }

  lemma CharTraced(st: State, t: Trace, c: byte)
    requires Traces(st, t) && c != PERCENT && CompletesNone(st.out, c)
    ensures Traces(st.Push([c]), t.Char(c))
  {
    var out := st.out + [c];
    forall k: nat ensures HighAt(out, k) == HighAt(st.out, k) && NulAt(out, k) == NulAt(st.out, k) {
      CharEscapes(st.out, c, k);
    }
    CharSlashes(st.out, t.slashes, c);
  }

  lemma MalformedTraced(st: State, t: Trace)
    requires Traces(st, t)
    ensures Traces(st.(out := st.out + [PERCENT], lastInvalid := Some(|st.out|)), t.Malformed())
  {
    var out := st.out + [PERCENT];
    forall k: nat ensures HighAt(out, k) == HighAt(st.out, k) && NulAt(out, k) == NulAt(st.out, k) {
      if k + 3 <= |st.out| {
        assert out[k..k + 3] == st.out[k..k + 3];
        SameEscape(st.out, out, k);
      }
    }
    assert SlashesOf(out, t.slashes);
  }

  lemma PushedEscapes(out: bytes, e: bytes, k: nat)
    requires |e| == 3 && e[0] == PERCENT && IsEscapeAt(e, 0)
    ensures var longer := out + e;
      && HighAt(longer, k) == (if k == |out| then HighAt(e, 0) else HighAt(out, k))
      && NulAt(longer, k) == (if k == |out| then NulAt(e, 0) else NulAt(out, k))
  {
    var longer := out + e;
    if k + 3 <= |out| {
      assert longer[k..k + 3] == out[k..k + 3];
      SameEscape(out, longer, k);
    } else if k == |out| {
      assert longer[k] == e[0] && longer[k + 1] == e[1] && longer[k + 2] == e[2];
    } else if k == |out| + 1 || k == |out| + 2 {
      assert k + 3 > |longer|;
    } else if k < |out| {
      assert longer[|out|] == PERCENT;
    }
  }

  lemma EscapeTraced(st: State, t: Trace, e: bytes, v: byte)
    requires Traces(st, t) && |e| == 3 && e[0] == PERCENT && IsEscapeAt(e, 0) && EscapeValue(e, 0) == v
    ensures Traces(st.Push(e), t.Escape(v))
  {
    var out := st.out + e;
    assert HighAt(e, 0) == (0x30 <= v < 0x80) && NulAt(e, 0) == (v == 0);
    forall k: nat
      ensures HighAt(out, k) == (k in t.Escape(v).high)
      ensures NulAt(out, k) == (k in t.Escape(v).nuls)
    {
      PushedEscapes(st.out, e, k);
    }
    assert e[1] != SLASH && e[2] != SLASH;
    assert SlashesOf(out, t.slashes);
  }

  // ---- The rewind ------------------------------------------------------------

  lemma CutLength(out: bytes, slashes: seq<nat>)
    requires SlashesOf(out, slashes) && |out| > 0 && out[0] == SLASH && out[|out| - 1] == SLASH
    ensures |slashes| > 0
    ensures |BackUp(out)| == (if |slashes| > 1 then slashes[|slashes| - 2] else slashes[0]) + 1
    ensures |slashes| == 1 ==> |out| == 1
  {
    assert 0 in slashes && |out| - 1 in slashes;
    var last := |slashes| - 1;
    var j :| 0 <= j < |slashes| && slashes[j] == |out| - 1;
    assert slashes[last] < |out|;
    assert forall k :: 0 <= k < last ==> slashes[k] < slashes[last];
    assert j == last;
    var z :| 0 <= z < |slashes| && slashes[z] == 0;
    if |out| > 1 {
      var n := |BackUp(out)| - 1;
      assert out[n] == SLASH;
      var m :| 0 <= m < |slashes| && slashes[m] == n;
      assert m < last;
      assert last > 0 ==> out[slashes[last - 1]] == SLASH;
    }
  }

  lemma CutEscapes(out: bytes, kept: bytes, k: nat)
    requires 0 < |kept| && kept <= out && kept[|kept| - 1] == SLASH
    ensures HighAt(kept, k) == (k < |kept| && HighAt(out, k))
    ensures NulAt(kept, k) == (k < |kept| && NulAt(out, k))
  {
    if k + 3 <= |kept| {
      assert kept[k..k + 3] == out[k..k + 3];
      SameEscape(out, kept, k);
    } else {
      assert out[|kept| - 1] == SLASH;
    }
  }

  lemma CutTraced(st: State, t: Trace)
    requires Traces(st, t) && |st.out| > 0 && st.out[0] == SLASH && st.EndsInSlash()
    ensures |t.slashes| > 0 && Traces(st.Rewind(), t.Cut())
  {
    var kept := BackUp(st.out);
    CutLength(st.out, t.slashes);
    BackUpEndsInSlash(st.out);
    var cut := t.Cut();
    assert cut.len == |kept|;
    forall k: nat ensures HighAt(kept, k) == (k in cut.high) && NulAt(kept, k) == (k in cut.nuls) {
      CutEscapes(st.out, kept, k);
    }
    assert SlashesOf(kept, cut.slashes) by {
      forall k | 0 <= k < |kept| && kept[k] == SLASH ensures k in cut.slashes {
        assert st.out[k] == SLASH;
        var j :| 0 <= j < |t.slashes| && t.slashes[j] == k;
        assert |t.slashes| > 1 ==> j < |t.slashes| - 1;
        assert cut.slashes[j] == k;
      }
    }
  }

  // ---- The repair ------------------------------------------------------------

  /** Whether a repair follows, told by the output and by the trace. */
  lemma RepairSeen(s: bytes, next: nat, st: State, t: Trace, v: byte)
    requires next <= |s| && Traces(st, t) && st.lastInvalid.Some? && |st.out| > 0
    ensures var p, n := st.lastInvalid.value, |st.out| + 1;
      (p >= n - 3 && NeedsRepair(s, next, p, st.out + [v])) <==>
      (IsHexChar(v) && ((t.len == p + 2 && t.endsHex) || (t.len == p + 1 && next < |s| && IsHexChar(s[next]))))
  {
    var p, out := st.lastInvalid.value, st.out + [v];
    if p + 2 == |st.out| {
      assert out[p + 1] == st.out[|st.out| - 1] && out[p + 2] == v;
    }
  }

  /** The escapes of a repaired text. Only the one that begins just before the percent sign is changed. */
  lemma RepairedEscapes(out: bytes, v: byte, p: nat, k: nat)
    requires p < |out| <= p + 2 && IsHexChar(v) && (p + 1 < |out| ==> IsHexChar(out[p + 1]))
    requires p > 0 && |out| == p + 1 && out[p - 1] == PERCENT ==> !IsHexChar(out[p])
    ensures var r := Repaired(out + [v], p);
      HighAt(r, k) == HighAt(out, k) && NulAt(r, k) == (NulAt(out, k) && k + 1 != p)
  {
    var r := Repaired(out + [v], p);
    RepairedText(out + [v], p);
    if k + 3 <= p + 1 {
      assert r[k..k + 3] == out[k..k + 3];
      SameEscape(out, r, k);
    } else if k > p {
      assert r[p + 1] != PERCENT && r[p + 2] != PERCENT && r[p + 3] != PERCENT;
    }
  }

  lemma RepairedSlashes(out: bytes, v: byte, p: nat, slashes: seq<nat>)
    requires p < |out| <= p + 2 && IsHexChar(v) && (p + 1 < |out| ==> IsHexChar(out[p + 1])) && SlashesOf(out, slashes)
    ensures SlashesOf(Repaired(out + [v], p), slashes)
  {
    var r := Repaired(out + [v], p);
    RepairedText(out + [v], p);
    forall k | 0 <= k < |r| && r[k] == SLASH ensures k in slashes { assert k <= p && out[k] == SLASH; }
    forall j | 0 <= j < |slashes| ensures slashes[j] < |r| && r[slashes[j]] == SLASH {
      assert out[slashes[j]] == SLASH && (slashes[j] == p + 1 ==> IsHexChar(SLASH));
    }
  }

  /** What the invariant says of a percent sign near the end of the output. */
  lemma PercentNearEnd(s: bytes, i: nat, st: State)
    requires i <= |s| && Inv(s, i, st)
    ensures var n := |st.out|;
      n >= 2 && st.out[n - 2] == PERCENT && IsHexChar(st.out[n - 1]) ==>
        st.lastInvalid == Some(n - 2) && !(i < |s| && IsHexChar(s[i]))
  {
    var n := |st.out|;
    if n >= 2 && st.out[n - 2] == PERCENT { assert PercentOk(st.out, n - 2, st.lastInvalid, st.torn, st.ok); }
  }

  /** An escape is torn exactly if it begins just before the percent sign and is one of the high ones. */
  lemma TearsSeen(s: bytes, i: nat, st: State, t: Trace, v: byte, p: nat)
    requires i <= |s| && Inv(s, i, st) && Traces(st, t) && st.lastInvalid == Some(p)
    requires p < |st.out| <= p + 2 && (p + 1 < |st.out| ==> IsHexChar(st.out[p + 1]))
    ensures Tears(st.out + [v], p) <==> p > 0 && p - 1 in t.high
  {
    PercentNearEnd(s, i, st);
    if p > 0 { assert p - 1 in t.high <==> HighAt(st.out, p - 1); }
  }

  lemma RepairOfTrace(s: bytes, next: nat, st: State, t: Trace, v: byte)
    requires next <= |s| && |st.out| > 0 && Traces(st, t) && st.lastInvalid.Some? && IsHexChar(v)
    requires st.lastInvalid.value >= |st.out| - 2 && NeedsRepair(s, next, st.lastInvalid.value, st.out + [v])
    ensures var p, after := st.lastInvalid.value, t.Unescaped(v, if next < |s| then Some(s[next]) else None);
      && p < |st.out| <= p + 2 && (p + 1 < |st.out| ==> IsHexChar(st.out[p + 1]))
      && after == t.(len := t.len + 3, endsHex := true, nuls := NotAt(t.nuls, p),
                     torn := if p > 0 && p - 1 in t.high then t.torn + {p - 1} else t.torn)
  {
    RepairSeen(s, next, st, t, v);
  }

  lemma RepairNearEnd(s: bytes, i: nat, st: State, t: Trace, v: byte, p: nat)
    requires i <= |s| && Inv(s, i, st) && Traces(st, t) && st.lastInvalid == Some(p)
    requires p < |st.out| <= p + 2 && (p + 1 < |st.out| ==> IsHexChar(st.out[p + 1]))
    ensures p > 0 && |st.out| == p + 1 && st.out[p - 1] == PERCENT ==> !IsHexChar(st.out[p])
    ensures Tears(st.out + [v], p) <==> p > 0 && p - 1 in t.high
  {
    PercentNearEnd(s, i, st);
    TearsSeen(s, i, st, t, v, p);
  }

  lemma RepairTraced(s: bytes, i: nat, next: nat, st: State, t: Trace, v: byte)
    requires i < next <= |s| && Inv(s, i, st) && Traces(st, t) && st.lastInvalid.Some? && IsHexChar(v)
    requires st.lastInvalid.value >= |st.out| - 2 && NeedsRepair(s, next, st.lastInvalid.value, st.out + [v])
    ensures Traces(PushUnescaped(s, next, v, st), t.Unescaped(v, if next < |s| then Some(s[next]) else None))
  {
    var p := st.lastInvalid.value;
    assert p < |st.out| <= p + 2 && (p + 1 < |st.out| ==> IsHexChar(st.out[p + 1])) by { RepairOfTrace(s, next, st, t, v); }
    RepairNearEnd(s, i, st, t, v, p);
    RepairIsTraced(s, next, st, t, v);
  }

  lemma RepairIsTraced(s: bytes, next: nat, st: State, t: Trace, v: byte)
    requires next <= |s| && |st.out| > 0 && Traces(st, t) && st.lastInvalid.Some? && IsHexChar(v)
    requires st.lastInvalid.value >= |st.out| - 2 && NeedsRepair(s, next, st.lastInvalid.value, st.out + [v])
    requires var p := st.lastInvalid.value; p > 0 && |st.out| == p + 1 && st.out[p - 1] == PERCENT ==> !IsHexChar(st.out[p])
    requires var p := st.lastInvalid.value; Tears(st.out + [v], p) <==> p > 0 && p - 1 in t.high
    ensures Traces(PushUnescaped(s, next, v, st), t.Unescaped(v, if next < |s| then Some(s[next]) else None))
  {
    RepairOfTrace(s, next, st, t, v);
    RepairOnBothSides(st, t, v, st.lastInvalid.value, t.Unescaped(v, if next < |s| then Some(s[next]) else None));
  }

  /** The repaired output, and the trace with the same repair. */
  lemma RepairOnBothSides(st: State, t: Trace, v: byte, p: nat, after: Trace)
    requires Traces(st, t) && IsHexChar(v)
    requires p < |st.out| <= p + 2 && (p + 1 < |st.out| ==> IsHexChar(st.out[p + 1]))
    requires p > 0 && |st.out| == p + 1 && st.out[p - 1] == PERCENT ==> !IsHexChar(st.out[p])
    requires Tears(st.out + [v], p) <==> p > 0 && p - 1 in t.high
    requires after == t.(len := t.len + 3, endsHex := true, nuls := NotAt(t.nuls, p),
                         torn := if p > 0 && p - 1 in t.high then t.torn + {p - 1} else t.torn)
    ensures Traces(st.(out := Repaired(st.out + [v], p), torn := if Tears(st.out + [v], p) then st.torn + {p - 1} else st.torn), after)
  {
    var r := Repaired(st.out + [v], p);
    assert |r| == |st.out| + 3 && r[|r| - 1] == v by { RepairedText(st.out + [v], p); }
    assert EscapesOf(r, after) by { RepairedTrace(st.out, v, p, t, after); }
    assert SlashesOf(r, t.slashes) by { RepairedSlashes(st.out, v, p, t.slashes); }
  }

  lemma RepairedTrace(out: bytes, v: byte, p: nat, t: Trace, after: Trace)
    requires p < |out| <= p + 2 && IsHexChar(v) && (p + 1 < |out| ==> IsHexChar(out[p + 1]))
    requires p > 0 && |out| == p + 1 && out[p - 1] == PERCENT ==> !IsHexChar(out[p])
    requires EscapesOf(out, t) && after.high == t.high && after.nuls == NotAt(t.nuls, p)
    ensures EscapesOf(Repaired(out + [v], p), after)
  {
    forall k: nat ensures var r := Repaired(out + [v], p); HighAt(r, k) == (k in after.high) && NulAt(r, k) == (k in after.nuls) {
      RepairedEscapes(out, v, p, k);
    }
  }

  lemma UnescapedTraced(s: bytes, i: nat, next: nat, st: State, t: Trace, v: byte)
    requires i < next <= |s| && Inv(s, i, st) && Traces(st, t) && PathChar(v).Unescape?
    ensures Traces(PushUnescaped(s, next, v, st), t.Unescaped(v, if next < |s| then Some(s[next]) else None))
  {
    if st.lastInvalid.Some? { RepairSeen(s, next, st, t, v); }
    if st.lastInvalid.Some? && st.lastInvalid.value >= |st.out| - 2 && NeedsRepair(s, next, st.lastInvalid.value, st.out + [v]) {
      RepairTraced(s, i, next, st, t, v);
    } else {
      PercentNearEnd(s, i, st);
      CharTraced(st, t, v);
    }
  }

  // ---- Every step ------------------------------------------------------------

  lemma DotTraced(s: bytes, i: nat, st: State, t: Trace)
    requires i < |s| && Inv(s, i, st) && Traces(st, t) && IsDot(s, i) > 0
    ensures TraceStep(s, i, t).0 == Step(s, i, st).0 && Traces(Step(s, i, st).1, TraceStep(s, i, t).1)
  {
    TracesSlash(st, t);
    var d := ClassifyAfterDot(s, i + IsDot(s, i));
    if !st.EndsInSlash() || d.NotADirectory? {
      CharTraced(st, t, DOT);
    } else if d.DirectoryUp? {
      CutTraced(st, t);
    }
  }

  lemma StepTraced(s: bytes, i: nat, st: State, t: Trace)
    requires i < |s| && Inv(s, i, st) && Traces(st, t)
    ensures TraceStep(s, i, t).0 == Step(s, i, st).0 && Traces(Step(s, i, st).1, TraceStep(s, i, t).1)
  {
    var c := s[i];
    if IsDot(s, i) > 0 {
      DotTraced(s, i, st, t);
    } else if c == BACKSLASH {
      CharTraced(st, t, SLASH);
    } else if c == PERCENT {
      if !IsEscapeAt(s, i) {
        MalformedTraced(st, t);
      } else if PathChar(EscapeValue(s, i)).Unescape? {
        UnescapedTraced(s, i, i + 3, st, t, EscapeValue(s, i));
      } else {
        var e := [PERCENT, s[i + 1], s[i + 2]];
        EscapeTraced(st, t, e, EscapeValue(e, 0));
      }
    } else if PathChar(c).Invalid? || PathChar(c).Escape? {
      EscapeTraced(st, t, Escaped(c), c);
    } else {
      PercentNearEnd(s, i, st);
      CharTraced(st, t, c);
    }
  }

  lemma {:induction false} ScanTraced(s: bytes, i: nat, st: State, t: Trace)
    requires i <= |s| && Inv(s, i, st) && Traces(st, t)
    ensures Traces(Scan(s, i, st), TraceScan(s, i, t))
    decreases |s| - i
  {
    if i < |s| {
      StepTraced(s, i, st, t);
      StepKeeps(s, i, st);
      ScanTraced(s, Step(s, i, st).0, Step(s, i, st).1, TraceStep(s, i, t).1);
    }
  }

  /** For every path: the trace has the length of the output, the escapes that are torn, and those of NUL. */
  lemma TraceIsExact(s: bytes)
    ensures var r, t := CanonicalPath(s), TraceOf(s);
      t.len == |r.out| && t.torn == r.torn && forall k: nat :: k in t.nuls <==> NulAt(r.out, k)
  {
    var start := Start([SLASH]);
    assert Traces(start, ROOT);
    if |s| > 0 {
      var i := FirstSlash(s);
      ScanTraced(s, i, start, ROOT);
    }
  }
}
