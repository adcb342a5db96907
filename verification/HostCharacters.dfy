/**
 What becomes of the characters of a host, with the alphabets written out: a host is decoded, lower-cased and escaped,
 so neither its case nor its escapes make a difference.
 */
module HostCharacters {
  import opened Bytes
  import opened Characters
  import opened IPv4Spec
  import opened IPv4
  import opened IPv6
  import opened HostSpec

  predicate KeptInHost(c: byte) { Letter(c) || Digit(c) || Among(c, "+-.:[]_") }

  predicate EscapedInHost(c: byte) { Among(c, " !\"#$&'()*,<=>@`{|}") }

  predicate RefusedInHost(c: byte) { c < 0x80 && !KeptInHost(c) && !EscapedInHost(c) }

  function HostCharText(c: byte): bytes {
    if c >= 0x80 then [c] else if KeptInHost(c) then [Lower(c)] else Escaped(c)
  }

  function HostText(t: bytes): bytes { if |t| == 0 then [] else HostCharText(t[0]) + HostText(t[1..]) }

  predicate NoneRefused(t: bytes) { forall k :: 0 <= k < |t| ==> !RefusedInHost(t[k]) }

  lemma WrittenIs(v: byte)
    ensures Written(v) == Simple(HostCharText(v), !RefusedInHost(v), v >= 0x80)
  {
  }

  /** What one character in front adds. */
  lemma OneMore(v: byte, t: bytes)
    ensures HostText([v] + t) == HostCharText(v) + HostText(t)
    ensures NoneRefused([v] + t) <==> !RefusedInHost(v) && NoneRefused(t)
    ensures AllAscii([v] + t) <==> v < 0x80 && AllAscii(t)
  {
    var u := [v] + t;
    assert u[1..] == t && u[0] == v;
    assert forall k :: 0 <= k < |t| ==> u[k + 1] == t[k];
  }

  /** For every host: the text is that of the decoded host, character by character, and it is refused if and only if one
      of these is. A percent sign that begins no escape is one that is refused. */
  lemma {:induction false} SimpleHostIs(s: bytes, i: nat)
    requires i <= |s|
    ensures var t := Decoded(s[i..]); SimpleHost(s, i) == Simple(HostText(t), NoneRefused(t), !AllAscii(t))
    decreases |s| - i
  {
    if i < |s| {
      var (j, one) := HostStep(s, i);
      EscapesAgree(s, i);
      SimpleHostIs(s, j);
      var v := if BeginsEscape(s[i..]) then EscapeValue(s, i) else s[i];
      WrittenIs(v);
      OneMore(v, Decoded(s[j..]));
    }
  }

  lemma SimpleHostMeans(s: bytes)
    ensures var t := Decoded(s); SimpleHost(s, 0) == Simple(HostText(t), NoneRefused(t), !AllAscii(t))
  {
    SimpleHostIs(s, 0);
    assert s[0..] == s;
  }

  // ---- Escapes do not matter -------------------------------------------------

  lemma {:induction false} NothingEscaped(s: bytes)
    requires !HasEscaped(s)
    ensures Decoded(s) == s
    decreases |s|
  {
    if |s| > 0 {
      assert s[0] != PERCENT;
      forall k | 0 <= k < |s[1..]| ensures s[1..][k] != PERCENT { assert s[k + 1] != PERCENT; }
      NothingEscaped(s[1..]);
    }
  }

  /** A host that decodes to ASCII characters is not left to the IDN conversion. */
  lemma AsciiNeedsNoIdn(s: bytes)
    requires AllAscii(Decoded(s))
    ensures !NeedsIdn(s)
  {
    SimpleHostMeans(s);
    if !HasEscaped(s) { NothingEscaped(s); }
  }

  /** Which hosts are left to it: those that decode to other characters too, unless they have escapes and one of their
      characters is refused anyway. */
  lemma NeedsIdnIff(s: bytes)
    ensures NeedsIdn(s) <==> !AllAscii(Decoded(s)) && (PERCENT !in s || NoneRefused(Decoded(s)))
  {
    SimpleHostMeans(s);
    if !HasEscaped(s) { NothingEscaped(s); }
  }

  /** Two hosts that decode to the same characters, but for their case, are the same host. */
  lemma SameDecodedSameHost(s: bytes, t: bytes)
    requires !NeedsIdn(s) && !NeedsIdn(t) && LowerCase(Decoded(s)) == LowerCase(Decoded(t))
    ensures CanonicalHost(s) == CanonicalHost(t)
  {
    SimpleHostMeans(s);
    SimpleHostMeans(t);
    HostTextOfLower(Decoded(s));
    HostTextOfLower(Decoded(t));
  }

  lemma LowerCharacter(c: byte)
    ensures HostCharText(Lower(c)) == HostCharText(c) && RefusedInHost(Lower(c)) == RefusedInHost(c)
  {
  }

  lemma {:induction false} HostTextOfLower(t: bytes)
    ensures HostText(LowerCase(t)) == HostText(t) && NoneRefused(LowerCase(t)) == NoneRefused(t)
    decreases |t|
  {
    if |t| > 0 {
      LowerCharacter(t[0]);
      HostTextOfLower(t[1..]);
      assert t == [t[0]] + t[1..] && LowerCase(t) == [Lower(t[0])] + LowerCase(t[1..]);
      OneMore(t[0], t[1..]);
      OneMore(Lower(t[0]), LowerCase(t[1..]));
    }
  }

  // ---- The case does not matter ------------------------------------------------

  lemma LowerBeginsEscape(s: bytes)
    ensures BeginsEscape(LowerCase(s)) <==> BeginsEscape(s)
    ensures BeginsEscape(s) ==>
      DigitOf(Lower(s[1])) == DigitOf(s[1]) && DigitOf(Lower(s[2])) == DigitOf(s[2])
  {
    if |s| >= 3 {
      LowerDigit(s[1]);
      LowerDigit(s[2]);
      assert LowerCase(s)[0] == Lower(s[0]);
    }
  }

  lemma LowerDigit(c: byte)
    ensures DigitOf(Lower(c)) == DigitOf(c)
  {
  }

  lemma {:induction false} DecodedLower(s: bytes)
    ensures LowerCase(Decoded(LowerCase(s))) == LowerCase(Decoded(s))
    decreases |s|
  {
    var t := LowerCase(s);
    if |s| > 0 {
      LowerBeginsEscape(s);
      var n := if BeginsEscape(s) then 3 else 1;
      assert t[n..] == LowerCase(s[n..]);
      DecodedLower(s[n..]);
      var v := if BeginsEscape(s) then DigitOf(s[1]).value * 16 + DigitOf(s[2]).value else s[0];
      var u := if BeginsEscape(s) then v else Lower(s[0]);
      assert Decoded(s) == [v] + Decoded(s[n..]) && Decoded(t) == [u] + Decoded(t[n..]);
      LowerOfMore(v, Decoded(s[n..]));
      LowerOfMore(u, Decoded(t[n..]));
    }
  }

  lemma LowerOfMore(v: byte, t: bytes)
    ensures LowerCase([v] + t) == [Lower(v)] + LowerCase(t) && Lower(Lower(v)) == Lower(v)
  {
  }

  lemma LowerIsAscii(t: bytes, u: bytes)
    requires LowerCase(t) == LowerCase(u)
    ensures AllAscii(t) <==> AllAscii(u)
  {
    assert |t| == |LowerCase(t)| == |u|;
    forall k | 0 <= k < |t| ensures t[k] < 0x80 <==> u[k] < 0x80 { assert LowerCase(t)[k] == LowerCase(u)[k]; }
  }

  lemma LowerKeepsPercents(s: bytes)
    ensures HasEscaped(LowerCase(s)) <==> HasEscaped(s)
    ensures AllAscii(LowerCase(s)) <==> AllAscii(s)
  {
    var t := LowerCase(s);
    forall k | 0 <= k < |s| ensures (t[k] == PERCENT <==> s[k] == PERCENT) && (t[k] < 0x80 <==> s[k] < 0x80) {
      assert t[k] == Lower(s[k]);
    }
    if HasEscaped(s) { var k :| 0 <= k < |s| && s[k] == PERCENT; assert t[k] == PERCENT; }
  }

  /** For every host: writing it in lower case makes no difference, escapes included. */
  lemma HostIgnoresCase(s: bytes)
    ensures NeedsIdn(LowerCase(s)) <==> NeedsIdn(s)
    ensures !NeedsIdn(s) ==> CanonicalHost(LowerCase(s)) == CanonicalHost(s)
  {
    var t := LowerCase(s);
    DecodedLower(s);
    SimpleHostMeans(s);
    SimpleHostMeans(t);
    HostTextOfLower(Decoded(s));
    HostTextOfLower(Decoded(t));
    LowerIsAscii(Decoded(s), Decoded(t));
    LowerKeepsPercents(s);
  }

  // ---- Single characters ---------------------------------------------------------

  lemma OneDecoded(v: byte)
    ensures Decoded([v]) == [v] && Decoded(Escaped(v)) == [v]
  {
    DecodedEscape(v, []);
    assert Escaped(v) + [] == Escaped(v) && [v] + Decoded([]) == [v];
  }

  lemma OneText(v: byte)
    ensures HostText([v]) == HostCharText(v) && NoneRefused([v]) == !RefusedInHost(v)
  {
    OneMore(v, []);
    assert [v] + [] == [v];
  }

  /** A text of one character, or of one escape, that is not a digit, is no address. */
  lemma OneIsNoAddress(text: bytes)
    requires (|text| == 1 && !Digit(text[0])) || (|text| == 3 && text[0] == PERCENT)
    ensures HostNumber(text) == Neutral && HostNumber6(text) == None
  {
    if |text| == 3 { assert !IsIPv4Char(text[0]); }
    if |text| == 1 && Parts(text).Some? {
      SplitOne(text);
      assert PartNumbers([text])[0] == NotANumber;
    }
  }

  lemma DotSplits()
    ensures Parts([DOT]) == None
  {
    assert SplitAtDots([DOT], 1) == [[DOT][1..]];
    assert SplitAtDots([DOT], 0) == [[DOT][0..0]] + SplitAtDots([DOT], 1);
  }

  lemma SplitOne(text: bytes)
    requires |text| == 1 && Parts(text).Some?
    ensures Parts(text) == Some([text])
  {
    DotSplits();
    assert text == [text[0]];
    if text[0] != DOT { assert NextDot(text, 0) == 1 && text[0..] == text; }
  }

  /** Every ASCII character but the digits as a host of its own, plain or escaped. The listed ones stay or are escaped, and
      all others make the host invalid; so do brackets and colons, which only addresses may have. */
  lemma OneCharacterHost(v: byte)
    requires v < 0x80 && !Digit(v)
    ensures forall s: bytes :: s == [v] || s == Escaped(v) ==>
      && !NeedsIdn(s)
      && CanonicalHost(s) == IPResult(
           if RefusedInHost(v) || Among(v, ":[]") then BROKEN else NEUTRAL,
           if KeptInHost(v) then [Lower(v)] else Escaped(v))
  {
    forall s: bytes | s == [v] || s == Escaped(v)
      ensures !NeedsIdn(s) && CanonicalHost(s) == IPResult(
        if RefusedInHost(v) || Among(v, ":[]") then BROKEN else NEUTRAL, if KeptInHost(v) then [Lower(v)] else Escaped(v))
    {
      OneDecoded(v);
      AsciiNeedsNoIdn(s);
      SimpleHostMeans(s);
      OneText(v);
      OneIsNoAddress(HostCharText(v));
      OnlyIPv6(v);
    }
  }

  lemma OnlyIPv6(v: byte)
    requires v < 0x80
    ensures NoIPv6OnlyChar(HostCharText(v)) <==> !Among(v, ":[]")
  {
    if KeptInHost(v) { assert HostCharText(v)[0] == Lower(v); }
    assert forall k :: 0 <= k < 3 ==> !IsIPv6OnlyChar(Escaped(v)[k]);
  }
}
