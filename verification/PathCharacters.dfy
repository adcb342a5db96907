/**
 What becomes of the characters of a path, with the alphabets of RFC 3986 written out (sections 2.2, 2.3 and 3.3), and
 that a path stands for the same characters before and after.
 */
module PathCharacters {
  import opened Bytes
  import opened Characters
  import opened PathSpec
  import opened PathInvariant
  import opened PathMended
  import opened PathIdempotence
  import opened PathDots

  /** What is written plain even if it comes escaped. The dot, which may make a dot segment, is treated apart. */
  predicate AlwaysPlain(c: byte) { Letter(c) || Digit(c) || Among(c, "-_~") }

  /** What stays as it is. */
  predicate InPath(c: byte) { AlwaysPlain(c) || Among(c, "!$&'()*+,;=:@[]") }

  lemma TableAgrees(c: byte)
    ensures PathChar(c).Unescape? <==> AlwaysPlain(c)
    ensures PathChar(c).Pass? <==> (InPath(c) && !AlwaysPlain(c)) || c == SLASH
    ensures PathChar(c).Special? <==> c == DOT
    ensures PathChar(c).Invalid? <==> c == 0
  {
  }

  // ---- Single characters -----------------------------------------------------

  lemma StartsBehindSlash(s: bytes)
    requires |s| > 0 && s[0] == SLASH
    ensures CanonicalPath(s) == Scan(s, 1, Start([SLASH]))
  {
    LiteralStep(s, 0, Start([]), [SLASH]);
  }

  /** Every byte as a path of its own, but for those that are treated apart. */
  lemma OneCharacterPath(v: byte)
    requires !Among(v, "./\\%")
    ensures CanonicalPath([SLASH, v]).out == if InPath(v) then [SLASH, v] else [SLASH] + Escaped(v)
  {
    var s, st := [SLASH, v], Start([SLASH]);
    StartsBehindSlash(s);
    TableAgrees(v);
    assert v != DOT && v != SLASH && v != BACKSLASH && v != PERCENT;
    assert Step(s, 1, st).0 == 2 && Step(s, 1, st).1.out == [SLASH] + if InPath(v) then [v] else Escaped(v);
    assert [SLASH] + [v] == [SLASH, v];
  }

  /** Every escape as a path of its own, in either case of its digits. That of a dot makes a dot segment here. */
  lemma OneEscapePath(e: bytes, v: byte)
    requires |e| == 3 && BeginsEscape(e) && Decoded(e) == [v] && v != DOT
    ensures CanonicalPath([SLASH] + e).out == [SLASH] + if AlwaysPlain(v) then [v] else e
  {
    var s, st := [SLASH] + e, Start([SLASH]);
    StartsBehindSlash(s);
    EscapesAgree(s, 1);
    assert s[1..] == e && s[4..] == [];
    assert Decoded(e)[0] == EscapeValue(s, 1) == v;
    TableAgrees(v);
    assert e == [PERCENT, s[2], s[3]];
    assert Step(s, 1, st).0 == 4 && Step(s, 1, st).1.out == [SLASH] + if AlwaysPlain(v) then [v] else e;
  }

  // ---- Whole paths -------------------------------------------------------------

  /** For every path: whatever is written is one of the characters above, a dot, a slash or a percent sign. */
  lemma OnlyPathCharacters(s: bytes)
    ensures var q := CanonicalPath(s).out; forall k :: 0 <= k < |q| ==> InPath(q[k]) || Among(q[k], "./%")
  {
    PathResult(s);
    var q := CanonicalPath(s).out;
    forall k | 0 <= k < |q| ensures InPath(q[k]) || Among(q[k], "./%") {
      assert IsOutChar(q[k]);
      TableAgrees(q[k]);
    }
  }

  /** A path over the alphabet, from the root and without dot segments, is its own canonical form. */
  lemma PlainPathIsKept(s: bytes)
    requires |s| > 0 && s[0] == SLASH && NoDotSegment(s)
    requires forall k :: 0 <= k < |s| ==> InPath(s[k]) || Among(s[k], "./")
    ensures CanonicalPath(s).out == s && CanonicalPath(s).ok
  {
    forall k | 0 <= k < |s| ensures IsOutChar(s[k]) && s[k] != PERCENT && s[k] != 0 {
      assert InPath(s[k]) || Among(s[k], "./");
      TableAgrees(s[k]);
    }
    CanonicalIsFixed(s);
    FirstVerdict(s);
  }

  // ---- Decoding ------------------------------------------------------------------

  /** Backslashes count as slashes. */
  function Turned(s: bytes): (t: bytes)
    ensures |t| == |s|
  {
    seq(|s|, k requires 0 <= k < |s| => if s[k] as char == '\\' then '/' as int else s[k])
  }

  lemma TurnedEscapes(s: bytes, i: nat)
    requires i < |s|
    ensures Turned(s)[i] == PERCENT <==> s[i] == PERCENT
    ensures IsEscapeAt(Turned(s), i) <==> IsEscapeAt(s, i)
    ensures IsEscapeAt(s, i) ==> EscapeValue(Turned(s), i) == EscapeValue(s, i)
  {
  }

  /** The text of a unit is one hexadecimal digit, or begins with something else. */
  lemma UnitHead(s: bytes, i: nat)
    requires i < |s|
    ensures HexUnitAt(s, i) <==> IsHexChar(Unit(s, i).1[0])
    ensures HexUnitAt(s, i) ==> |Unit(s, i).1| == 1 && Unit(s, i).0 == if s[i] == PERCENT then 3 else 1
  {
    if s[i] == PERCENT && IsEscapeAt(s, i) { TableAgrees(EscapeValue(s, i)); } else { TableAgrees(s[i]); }
  }

  lemma NormalizedDigit(s: bytes, i: nat)
    requires i <= |s|
    ensures HexUnitAt(s, i) <==> |Normalized(s, i)| > 0 && IsHexChar(Normalized(s, i)[0])
    ensures HexUnitAt(s, i) ==> Normalized(s, i)[1..] == Normalized(s, if s[i] == PERCENT then i + 3 else i + 1)
  {
    if i < |s| { UnitHead(s, i); }
  }

  lemma NormalizedTwoDigits(s: bytes, i: nat)
    requires i <= |s|
    ensures BeginsEscape([PERCENT] + Normalized(s, i)) <==> TwoHexUnitsAt(s, i)
  {
    var n := Normalized(s, i);
    var t := [PERCENT] + n;
    NormalizedDigit(s, i);
    if |n| > 0 { assert t[1] == n[0]; DigitsAgree(n[0]); }
    if |n| > 1 { assert t[2] == n[1] == n[1..][0]; DigitsAgree(n[1]); }
    if HexUnitAt(s, i) { NormalizedDigit(s, if s[i] == PERCENT then i + 3 else i + 1); }
  }

  /** What a unit decodes to, in front of the rest: the character or the escape that it was. */
  lemma UnitDecoded(s: bytes, i: nat)
    requires i < |s|
    ensures var (n, text) := Unit(s, i);
      n == (if s[i] == PERCENT && IsEscapeAt(s, i) then 3 else 1)
      && Decoded(text + Normalized(s, i + n))
        == [if n == 3 then EscapeValue(s, i) else if s[i] == BACKSLASH then SLASH else s[i]] + Decoded(Normalized(s, i + n))
  {
    var (n, text) := Unit(s, i);
    var rest := Normalized(s, i + n);
    if s[i] == PERCENT && IsEscapeAt(s, i) { EscapeDecoded(s, i, rest); }
    else if s[i] == PERCENT {
      NormalizedTwoDigits(s, i + 1);
      if TwoHexUnitsAt(s, i + 1) {
        assert ESCAPED_PERCENT == Escaped(PERCENT);
        DecodedEscape(PERCENT, rest);
      } else {
        DecodedCharacter(PERCENT, rest);
      }
    }
    else if IsDot(s, i) > 0 { DecodedCharacter(DOT, rest); }
    else if s[i] == BACKSLASH { DecodedCharacter(SLASH, rest); }
    else if IsSpecial(s[i]) { DecodedEscape(s[i], rest); }
    else { DecodedCharacter(s[i], rest); }
  }

  lemma EscapeDecoded(s: bytes, i: nat, rest: bytes)
    requires i < |s| && s[i] == PERCENT && IsEscapeAt(s, i)
    ensures var (n, text) := Unit(s, i); n == 3 && Decoded(text + rest) == [EscapeValue(s, i)] + Decoded(rest)
  {
    var v := EscapeValue(s, i);
    TableAgrees(v);
    if v == DOT || AlwaysPlain(v) {
      DecodedCharacter(v, rest);
    } else {
      var t := s[i..i + 3] + rest;
      EscapesAgree(t, 0);
      assert t[0..] == t && t[3..] == rest;
    }
  }

  /** For every path: normalizing its characters does not change what they stand for, whether its percent signs begin
      escapes or not. This is what the repair of nested escapes is for. */
  lemma {:induction false} NormalizedIsDecoded(s: bytes, i: nat)
    requires i <= |s|
    ensures Decoded(Normalized(s, i)) == Decoded(Turned(s)[i..])
    decreases |s| - i
  {
    if i < |s| {
      UnitDecoded(s, i);
      NormalizedIsDecoded(s, i + Unit(s, i).0);
      TurnedEscapes(s, i);
      EscapesAgree(Turned(s), i);
    }
  }

  // ---- Paths without dot segments --------------------------------------------------

  lemma NoDotBehind(q: bytes, n: nat)
    requires n <= |q| && NoDotSegment(q)
    ensures n < |q| && q[n] == SLASH ==> NoDotSegment(q[n..])
  {
    forall k | 0 <= k < |q[n..]| ensures !DotSegmentAt(q[n..], k) { assert !DotSegmentAt(q, n + k); }
  }

  lemma FirstSegmentIsPlain(q: bytes, seg: bytes, rest: bytes)
    requires q == [SLASH] + seg + rest && NoDotSegment(q) && (|rest| > 0 ==> rest[0] == SLASH)
    ensures seg != [DOT] && seg != [DOT, DOT]
  {
    assert !DotSegmentAt(q, 0);
    if |rest| > 0 { assert q[1 + |seg|] == rest[0]; }
  }

  lemma FirstSegmentOf(q: bytes) returns (seg: bytes, rest: bytes)
    requires |q| > 0 && q[0] == SLASH && NoDotSegment(q)
    ensures q == [SLASH] + seg + rest && NoSlash(seg) && seg != [DOT] && seg != [DOT, DOT]
    ensures (|rest| > 0 ==> rest[0] == SLASH) && NoDotSegment(rest)
  {
    seg := SegmentOf(q[1..]);
    rest := q[1 + |seg|..];
    assert q == [SLASH] + seg + rest;
    FirstSegmentIsPlain(q, seg, rest);
    NoDotBehind(q, 1 + |seg|);
  }

  lemma {:induction false} NothingToRemove(q: bytes, done: bytes)
    requires NoDotSegment(q) && (|q| > 0 ==> q[0] == SLASH)
    ensures RemoveDotSegments(q, done) == done + q
    decreases |q|
  {
    if |q| > 0 {
      var seg, rest := FirstSegmentOf(q);
      MovesSegment(seg, rest, done);
      NothingToRemove(rest, done + [SLASH] + seg);
      assert done + [SLASH] + seg + rest == done + ([SLASH] + seg + rest);
    }
  }

  lemma RootedIsDecoded(n: bytes, t: bytes)
    requires Decoded(n) == Decoded(t) && (|n| > 0 && n[0] == SLASH <==> |t| > 0 && t[0] == SLASH)
    ensures Decoded(Rooted(n)) == Decoded(Rooted(t))
  {
    if !(|n| > 0 && n[0] == SLASH) {
      DecodedCharacter(SLASH, n);
      DecodedCharacter(SLASH, t);
    }
  }

  /** A path without dot segments, on which no stale repair is kept, decodes to what it decoded to before, but for its
      backslashes and a slash in front. */
  lemma PathIsDecoded(s: bytes)
    requires !KeepsStaleRepair(s) && NoDotSegment(Rooted(Normalized(s, 0)))
    ensures Decoded(CanonicalPath(s).out) == Decoded(Rooted(Turned(s)))
  {
    PathIsRemoveDotSegmentsIff(s);
    NothingToRemove(Rooted(Normalized(s, 0)), []);
    assert [] + Rooted(Normalized(s, 0)) == Rooted(Normalized(s, 0));
    NormalizedIsDecoded(s, 0);
    assert Turned(s)[0..] == Turned(s);
    if |s| > 0 { NormalizedHead(s, 0); }
    RootedIsDecoded(Normalized(s, 0), Turned(s));
  }
}
