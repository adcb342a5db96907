/**
 Bytes, the shared character classes, percent escapes and the hexadecimal tables
 of the URL library (url_canon_internal.h and url_canon_internal.cc).
 */
module Bytes {

  type byte = x: int | 0 <= x < 0x100

  type bytes = seq<byte>

  datatype Option<+T> = None | Some(value: T) {
    function GetOr(default: T): T {
      match this
      case Some(v) => v
      case None => default
    }
  }

  const SLASH: byte := 0x2F
  const BACKSLASH: byte := 0x5C
  const DOT: byte := 0x2E
  const PERCENT: byte := 0x25
  const COLON: byte := 0x3A
  const QUESTION: byte := 0x3F
  const HASH: byte := 0x23
  const AT: byte := 0x40
  const LBRACKET: byte := 0x5B
  const RBRACKET: byte := 0x5D
  const ZERO: byte := 0x30
  const SPACE: byte := 0x20

  predicate IsDigit(c: byte) { 0x30 <= c <= 0x39 }

  predicate IsLower(c: byte) { 0x61 <= c <= 0x7A }

  predicate IsUpper(c: byte) { 0x41 <= c <= 0x5A }

  predicate IsUrlSlash(c: byte) { c == SLASH || c == BACKSLASH }

  // ---- kSharedCharTypeTable, one predicate for each flag -------------------

  predicate IsOctChar(c: byte) { 0x30 <= c <= 0x37 }

  predicate IsHexChar(c: byte) { IsDigit(c) || 0x41 <= c <= 0x46 || 0x61 <= c <= 0x66 }

  /** Digits, the hexadecimal letters, the dot and the letter x. */
  predicate IsIPv4Char(c: byte) { IsHexChar(c) || c == DOT || c == 0x58 || c == 0x78 }

  /** Every ASCII character from '!' to '~' except the double quote, '#', the apostrophe, '<' and '>'. */
  predicate IsQueryChar(c: byte) {
    0x21 <= c <= 0x7E && c != 0x22 && c != HASH && c != 0x27 && c != 0x3C && c != 0x3E
  }

  /** Letters, digits and ! $ % & ( ) * + , - . _ ~ */
  predicate IsUserInfoChar(c: byte) {
    || IsDigit(c) || IsLower(c) || IsUpper(c)
    || c == 0x21 || 0x24 <= c <= 0x26 || 0x28 <= c <= 0x2E || c == 0x5F || c == 0x7E
  }

  predicate AllAscii(s: bytes) { forall k :: 0 <= k < |s| ==> s[k] < 0x80 }

  // ---- Hexadecimal ---------------------------------------------------------

  /** The entry of kCharToHexLookup for the region of 0x20 characters that c lies in. */
  function CharToHexLookup(region: nat): int {
    if region == 1 then 0x30 else if region == 2 then 0x41 - 10 else if region == 3 then 0x61 - 10 else 0
  }

  function HexCharToValue(c: byte): (v: byte)
    requires IsHexChar(c)
    ensures v < 16
    ensures IsDigit(c) ==> v == c - 0x30
    ensures !IsDigit(c) ==> v >= 10 && (c == 0x41 + v - 10 || c == 0x61 + v - 10)
  {
    c - CharToHexLookup(c / 0x20)
  }

  /** kHexCharLookup: upper case digits. */
  function HexCharLookup(v: byte): (c: byte)
    requires v < 16
    ensures IsHexChar(c) && HexCharToValue(c) == v
    ensures !IsLower(c)
  {
    if v < 10 then 0x30 + v else 0x41 + v - 10
  }

  // ---- Percent escapes -----------------------------------------------------

  /** AppendEscapedChar: the three characters written for one byte. */
  function Escaped(c: byte): (e: bytes)
    ensures |e| == 3 && e[0] == PERCENT && IsEscapeAt(e, 0) && EscapeValue(e, 0) == c
    ensures e[1] == HexCharLookup(c / 16) && e[2] == HexCharLookup(c % 16)
  {
    [PERCENT, HexCharLookup(c / 16), HexCharLookup(c % 16)]
  }

  /** DecodeEscaped succeeds at i: there is room for two hexadecimal digits after i. The character at i
      itself is not looked at. */
  predicate IsEscapeAt(s: bytes, i: nat) {
    i + 3 <= |s| && IsHexChar(s[i + 1]) && IsHexChar(s[i + 2])
  }

  /** The value DecodeEscaped stores when it succeeds. */
  function EscapeValue(s: bytes, i: nat): (v: byte)
    requires IsEscapeAt(s, i)
  {
    HexCharToValue(s[i + 1]) * 16 + HexCharToValue(s[i + 2])
  }

  /** IsDot: 1 for a literal dot, 3 for an escaped one, 0 for anything else. */
  function IsDot(s: bytes, i: nat): (n: nat)
    requires i < |s|
    ensures n == 0 || n == 1 || n == 3
    ensures n == 1 <==> s[i] == DOT
    ensures n == 3 <==> s[i] == PERCENT && IsEscapeAt(s, i) && EscapeValue(s, i) == DOT
    ensures i + n <= |s|
  {
    if s[i] == DOT then 1
    else if s[i] == PERCENT && i + 3 <= |s| && s[i + 1] == 0x32 && (s[i + 2] == 0x65 || s[i + 2] == 0x45) then 3
    else 0
  }

  // ---- Concatenation -------------------------------------------------------

  lemma Regroup(a: bytes, b: bytes, c: bytes)
    ensures a + b + c == a + (b + c)
  {
  }

  lemma Regroup4(a: bytes, b: bytes, c: bytes, d: bytes)
    ensures a + b + c + d == a + (b + c + d) == a + (b + (c + d))
  {
  }

  lemma Front(a: bytes, b: bytes)
    ensures (a + b)[..|a|] == a && (a + b)[|a|..] == b
  {
  }
}
