/**
 Characters and percent escapes as RFC 3986 writes them out (sections 2.1 to 2.3), without the tables of the library:
 what the canonicalizers do with characters is measured against these.
 */
module Characters {
  import opened Bytes
  import opened Numbers

  // ---- Alphabets -------------------------------------------------------------

  predicate Letter(c: byte) { 'a' <= c as char <= 'z' || 'A' <= c as char <= 'Z' }

  predicate Digit(c: byte) { '0' <= c as char <= '9' }

  predicate Among(c: byte, chars: string) { c as char in chars }

  /** The bytes of an ASCII text. */
  function Ascii(text: string): (s: bytes)
    requires forall k :: 0 <= k < |text| ==> text[k] as int < 0x80
    ensures |s| == |text|
  {
    seq(|text|, k requires 0 <= k < |text| => text[k] as int)
  }

  function Lower(c: byte): byte { if 'A' <= c as char <= 'Z' then c + ('a' as int - 'A' as int) else c }

  function LowerCase(s: bytes): (t: bytes)
    ensures |t| == |s|
  {
    seq(|s|, k requires 0 <= k < |s| => Lower(s[k]))
  }

  // ---- Decoding --------------------------------------------------------------

  /** The value of a hexadecimal digit. */
  function DigitOf(c: byte): Option<byte> {
    if Digit(c) then Some(c - '0' as int)
    else if 'A' <= c as char <= 'F' then Some(c - 'A' as int + 10)
    else if 'a' <= c as char <= 'f' then Some(c - 'a' as int + 10)
    else None
  }

  /** A percent sign and two hexadecimal digits. */
  predicate BeginsEscape(s: bytes) {
    |s| >= 3 && s[0] as char == '%' && DigitOf(s[1]).Some? && DigitOf(s[2]).Some?
  }

  /** Every escape is replaced by the byte it stands for. A percent sign that begins none stays. */
  function Decoded(s: bytes): bytes {
    if |s| == 0 then []
    else if BeginsEscape(s) then [DigitOf(s[1]).value * 16 + DigitOf(s[2]).value] + Decoded(s[3..])
    else [s[0]] + Decoded(s[1..])
  }

  lemma DigitsAgree(c: byte)
    ensures DigitOf(c).Some? <==> IsHexChar(c)
    ensures IsHexChar(c) ==> DigitOf(c).value == HexCharToValue(c)
  {
  }

  /** The decoder of the library finds the same escapes. */
  lemma EscapesAgree(s: bytes, i: nat)
    requires i < |s|
    ensures BeginsEscape(s[i..]) <==> s[i] == PERCENT && IsEscapeAt(s, i)
    ensures BeginsEscape(s[i..]) ==> Decoded(s[i..]) == [EscapeValue(s, i)] + Decoded(s[i + 3..])
    ensures !BeginsEscape(s[i..]) ==> Decoded(s[i..]) == [s[i]] + Decoded(s[i + 1..])
  {
    if i + 3 <= |s| {
      DigitsAgree(s[i + 1]);
      DigitsAgree(s[i + 2]);
    }
    assert s[i..][1..] == s[i + 1..];
    if i + 3 <= |s| { assert s[i..][3..] == s[i + 3..]; }
  }

  lemma DecodedEscape(v: byte, rest: bytes)
    ensures Decoded(Escaped(v) + rest) == [v] + Decoded(rest)
  {
    var s := Escaped(v) + rest;
    DigitsAgree(s[1]);
    DigitsAgree(s[2]);
    assert s[3..] == rest;
  }

  lemma DecodedCharacter(c: byte, rest: bytes)
    requires !BeginsEscape([c] + rest)
    ensures Decoded([c] + rest) == [c] + Decoded(rest)
  {
    assert ([c] + rest)[1..] == rest;
  }

  // ---- Escaping ---------------------------------------------------------------

  /** Characters that are kept stay, all others are escaped. */
  function EscapedBut(s: bytes, kept: byte -> bool): bytes {
    if |s| == 0 then [] else (if kept(s[0]) then [s[0]] else Escaped(s[0])) + EscapedBut(s[1..], kept)
  }

  /** Percent signs are left alone, and so is whatever an escape is made of. */
  predicate KeepsEscapes(kept: byte -> bool) { kept(PERCENT) && forall c: byte :: DigitOf(c).Some? ==> kept(c) }

  lemma EscapedHead(s: bytes, kept: byte -> bool)
    requires KeepsEscapes(kept)
    ensures var t := EscapedBut(s, kept);
      && (|s| > 0 ==> |t| > 0 && (DigitOf(t[0]).Some? <==> DigitOf(s[0]).Some?))
      && (|s| > 0 && DigitOf(s[0]).Some? ==> t == [s[0]] + EscapedBut(s[1..], kept))
  {
  }

  lemma EscapedBeginsEscape(s: bytes, kept: byte -> bool)
    requires KeepsEscapes(kept) && |s| > 0 && s[0] == PERCENT
    ensures BeginsEscape(EscapedBut(s, kept)) <==> BeginsEscape(s)
    ensures BeginsEscape(s) ==> EscapedBut(s, kept) == [s[0], s[1], s[2]] + EscapedBut(s[3..], kept)
  {
    var t, rest := EscapedBut(s, kept), EscapedBut(s[1..], kept);
    assert t == [PERCENT] + rest;
    EscapedHead(s[1..], kept);
    if |s| > 1 && DigitOf(s[1]).Some? {
      assert s[1..][1..] == s[2..];
      EscapedHead(s[2..], kept);
      if |s| > 2 { assert s[2..][1..] == s[3..]; }
    }
  }

  /** Escaping changes nothing for those who decode. */
  lemma {:induction false} EscapingIsDecoded(s: bytes, kept: byte -> bool)
    requires KeepsEscapes(kept)
    ensures Decoded(EscapedBut(s, kept)) == Decoded(s)
    decreases |s|
  {
    if |s| == 0 {
    } else if s[0] == PERCENT && BeginsEscape(s) {
      EscapedBeginsEscape(s, kept);
      EscapingIsDecoded(s[3..], kept);
      assert EscapedBut(s, kept)[3..] == EscapedBut(s[3..], kept);
    } else {
      EscapingIsDecoded(s[1..], kept);
      if s[0] == PERCENT { EscapedBeginsEscape(s, kept); }
      if kept(s[0]) { DecodedCharacter(s[0], EscapedBut(s[1..], kept)); } else { DecodedEscape(s[0], EscapedBut(s[1..], kept)); }
    }
  }

  // ---- Numerals -----------------------------------------------------------------

  predicate DigitsBelow(d: bytes, radix: nat) { forall k :: 0 <= k < |d| ==> DigitOf(d[k]).Some? && DigitOf(d[k]).value < radix }

  function Numeral(d: bytes, radix: nat): nat
    requires DigitsBelow(d, radix)
  {
    if |d| == 0 then 0 else Numeral(d[..|d| - 1], radix) * radix + DigitOf(d[|d| - 1]).value
  }

  lemma DigitIs(c: byte)
    ensures Oct.IsDigit(c) <==> DigitOf(c).Some? && DigitOf(c).value < 8
    ensures Dec.IsDigit(c) <==> DigitOf(c).Some? && DigitOf(c).value < 10
    ensures Hex.IsDigit(c) <==> DigitOf(c).Some? && DigitOf(c).value < 16
    ensures IsHexChar(c) ==> DigitOf(c).value == HexCharToValue(c)
  {
  }

  lemma DigitsAre(d: bytes, base: Base)
    ensures AllDigits(d, base) <==> DigitsBelow(d, base.Radix())
  {
    forall k | 0 <= k < |d| ensures base.IsDigit(d[k]) <==> DigitOf(d[k]).Some? && DigitOf(d[k]).value < base.Radix() { DigitIs(d[k]); }
  }

  lemma {:induction false} ValueIs(d: bytes, base: Base)
    requires AllDigits(d, base)
    ensures DigitsBelow(d, base.Radix()) && Value(d, base) == Numeral(d, base.Radix())
  {
    DigitsAre(d, base);
    if |d| > 0 {
      DigitIs(d[|d| - 1]);
      ValueIs(d[..|d| - 1], base);
    }
  }
}
