/**
 The path scanner of url_canon_path.cc as a function over bytes. Positions are relative to the beginning of
 the path, in the input (s) and in the output (out) alike.
 */
module PathSpec {
  import opened Bytes

  // ---- kPathCharLookup -----------------------------------------------------

  datatype CharFlags = Pass | Special | Escape | Unescape | Invalid

  function PathChar(c: byte): CharFlags {
    if c == 0 then Invalid
    else if c == DOT then Special
    else if IsDigit(c) || IsLower(c) || IsUpper(c) || c == 0x2D || c == 0x5F || c == 0x7E then Unescape
    else if c == 0x21 || c == 0x24 || 0x26 <= c <= 0x2C || c == SLASH || c == COLON || c == 0x3B
            || c == 0x3D || c == AT || c == LBRACKET || c == RBRACKET then Pass
    else Escape
  }

  /** The SPECIAL bit, which the ESCAPE and INVALID entries carry too. */
  predicate IsSpecial(c: byte) { !PathChar(c).Pass? && !PathChar(c).Unescape? }

  // ---- Dots ----------------------------------------------------------------

  datatype DotDisposition =
    | NotADirectory
    | DirectoryCur(consumed: nat)
    | DirectoryUp(consumed: nat)

  function ClassifyAfterDot(s: bytes, afterDot: nat): (d: DotDisposition)
    requires afterDot <= |s|
    ensures d.DirectoryCur? ==> afterDot + d.consumed <= |s|
    ensures d.DirectoryUp? ==> afterDot + d.consumed <= |s|
  {
    if afterDot == |s| then DirectoryCur(0)
    else if IsUrlSlash(s[afterDot]) then DirectoryCur(1)
    else
      var secondDot := IsDot(s, afterDot);
      var afterSecond := afterDot + secondDot;
      if secondDot == 0 then NotADirectory
      else if afterSecond == |s| then DirectoryUp(secondDot)
      else if IsUrlSlash(s[afterSecond]) then DirectoryUp(secondDot + 1)
      else NotADirectory
  }

  /** The output kept when the search for a slash goes down from position i. */
  function UpToSlash(out: bytes, i: nat): (kept: bytes)
    requires i < |out|
    ensures 0 < |kept| <= i + 1 && kept <= out
    ensures kept[|kept| - 1] == SLASH || |kept| == 1
    ensures forall k :: |kept| <= k <= i ==> out[k] != SLASH
  {
    if out[i] == SLASH || i == 0 then out[..i + 1] else UpToSlash(out, i - 1)
  }

  /** BackUpToPreviousSlash. */
  function BackUp(out: bytes): (kept: bytes)
    requires |out| > 0
    ensures 0 < |kept| <= |out| && kept <= out
  {
    if |out| == 1 then out else UpToSlash(out, |out| - 2)
  }

  // ---- Nested escapes ------------------------------------------------------

  /** CheckForNestedEscapes finds two hexadecimal digits after position p: both in the output, or the second
      still unread in the input. */
  predicate NeedsRepair(s: bytes, next: nat, p: nat, out: bytes)
    requires next <= |s|
  {
    if p + 2 == |out| then IsHexChar(out[p + 1]) && next < |s| && IsHexChar(s[next])
    else IsEscapeAt(out, p)
  }

  /** The repair puts "25" behind position p. */
  function Repaired(out: bytes, p: nat): bytes
    requires p < |out|
  {
    out[..p + 1] + [0x32, 0x35] + out[p + 1..]
  }

  /** The repair at p falls inside an escape "%XY" that begins at p - 1 and has X from 3 to 7. What it leaves
      there is "%X2", the escape of one of 2, B, R, b and r. */
  predicate Tears(out: bytes, p: nat) {
    && 1 <= p < |out| && out[p - 1] == PERCENT
    && IsHexChar(out[p]) && 3 <= HexCharToValue(out[p]) <= 7
  }

  // ---- The scanner ---------------------------------------------------------

  /**
   The variables of DoPartialPath. lastInvalid is last_invalid_percent_index, None standing for INT_MIN.
   torn is not in the program: it holds the positions of the escapes in the output that a repair has torn.
   */
  datatype State = State(out: bytes, lastInvalid: Option<nat>, ok: bool, torn: set<nat>) {
    function Push(text: bytes): State { this.(out := out + text) }

    /** A DIRECTORY_UP. Only the output is shortened: lastInvalid stays as it was. */
    function Rewind(): State
      requires |out| > 0
    {
      var kept := BackUp(out);
      this.(out := kept, torn := set t | t in torn && t < |kept|)
    }

    function Fail(): State { this.(ok := false) }

    predicate EndsInSlash() { |out| > 0 && out[|out| - 1] == SLASH }
  }

  function StepDot(s: bytes, i: nat, dotLen: nat, st: State): (r: (nat, State))
    requires i + dotLen <= |s| && dotLen > 0
    ensures i < r.0 <= |s|
  {
    var after := i + dotLen;
    if st.EndsInSlash() then
      match ClassifyAfterDot(s, after)
      case NotADirectory => (after, st.Push([DOT]))
      case DirectoryCur(consumed) => (after + consumed, st)
      case DirectoryUp(consumed) => (after + consumed, st.Rewind())
    else
      (after, st.Push([DOT]))
  }

  /** One unescaped value, with the repair that may follow. */
  function PushUnescaped(s: bytes, next: nat, v: byte, st: State): (r: State)
    requires next <= |s|
  {
    var out := st.out + [v];
    if st.lastInvalid.Some? && st.lastInvalid.value >= |out| - 3 && NeedsRepair(s, next, st.lastInvalid.value, out) then
      var p := st.lastInvalid.value;
      st.(out := Repaired(out, p), torn := if Tears(out, p) then st.torn + {p - 1} else st.torn)
    else
      st.(out := out)
  }

  function StepPercent(s: bytes, i: nat, st: State): (r: (nat, State))
    requires i < |s|
    ensures i < r.0 <= |s|
  {
    if IsEscapeAt(s, i) then
      var v := EscapeValue(s, i);
      if PathChar(v).Unescape? then (i + 3, PushUnescaped(s, i + 3, v, st))
      else
        var kept := st.Push([PERCENT, s[i + 1], s[i + 2]]);
        (i + 3, if PathChar(v).Invalid? then kept.Fail() else kept)
    else
      (i + 1, st.(out := st.out + [PERCENT], lastInvalid := Some(|st.out|)))
  }

  /** One round of the loop of DoPartialPath: the next input position and the new variables. */
  function Step(s: bytes, i: nat, st: State): (r: (nat, State))
    requires i < |s|
    ensures i < r.0 <= |s|
  {
    var c := s[i];
    if IsDot(s, i) > 0 then StepDot(s, i, IsDot(s, i), st)
    else if c == BACKSLASH then (i + 1, st.Push([SLASH]))
    else if c == PERCENT then StepPercent(s, i, st)
    else if PathChar(c).Invalid? then (i + 1, st.Push(Escaped(c)).Fail())
    else if PathChar(c).Escape? then (i + 1, st.Push(Escaped(c)))
    else (i + 1, st.Push([c]))
  }

  function Scan(s: bytes, i: nat, st: State): State
    requires i <= |s|
    decreases |s| - i
  {
    if i == |s| then st
    else
      var (j, next) := Step(s, i, st);
      Scan(s, j, next)
  }

  /** The variables at the start of DoPartialPath, with the given text already in the output's path. */
  function Start(out: bytes): State { State(out, None, true, {}) }

  /** DoPath. */
  function CanonicalPath(s: bytes): State {
    if |s| == 0 then Start([SLASH])
    else Scan(s, 0, Start(if IsUrlSlash(s[0]) then [] else [SLASH]))
  }
}
