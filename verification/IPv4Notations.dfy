/**
 The notations of IPv4 addresses: what every part stands for, read by a grammar with its digits and bases written out,
 and how parts written in any base are put together.
 */
module IPv4Notations {
  import opened Bytes
  import opened Characters
  import opened Numbers
  import opened IPv4Spec

  // ---- The grammar of a part ---------------------------------------------------

  predicate BeginsHex(p: bytes) { |p| >= 2 && p[0] as char == '0' && Among(p[1], "xX") }

  predicate BeginsOctal(p: bytes) { |p| >= 2 && p[0] as char == '0' && !Among(p[1], "xX") }

  /** What a part stands for in the notation of the C language: None for no number. */
  function PartValue(p: bytes): Option<nat> {
    if BeginsHex(p) then if DigitsBelow(p[2..], 16) then Some(Numeral(p[2..], 16)) else None
    else if BeginsOctal(p) then if DigitsBelow(p[1..], 8) then Some(Numeral(p[1..], 8)) else None
    else if DigitsBelow(p, 10) then Some(Numeral(p, 10))
    else None
  }

  lemma BaseIs(p: bytes)
    requires |p| > 0
    ensures BaseOf(p) == if BeginsHex(p) then (Hex, 2) else if BeginsOctal(p) then (Oct, 1) else (Dec, 0)
  {
  }

  /** For every part: it is a number if and only if the grammar has it, and then that number, unless it is too big. */
  lemma PartIsValue(p: bytes)
    requires |p| > 0
    ensures PartNumber(p) ==
      match PartValue(p)
      case None => NotANumber
      case Some(n) => if n <= 0xFFFF_FFFF then Number(n) else TooBig
  {
    BaseIs(p);
    var (base, prefix) := BaseOf(p);
    DigitsAre(p[prefix..], base);
    if AllDigits(p[prefix..], base) { ValueIs(p[prefix..], base); }
    assert p[0..] == p;
  }

  // ---- Parts written in any base ------------------------------------------------

  datatype Notation = InDecimal | InOctal | InHex(capital: bool)

  function Written(n: nat, notation: Notation): bytes {
    match notation
    case InDecimal => Decimal(n)
    case InOctal => Ascii("0") + Octal(n)
    case InHex(capital) => Ascii(if capital then "0X" else "0x") + Hexadecimal(n)
  }

  lemma DigitsAreIPv4(d: bytes, base: Base)
    requires AllDigits(d, base)
    ensures forall k :: 0 <= k < |d| ==> IsIPv4Char(d[k]) && d[k] != DOT
  {
    forall k | 0 <= k < |d| ensures IsIPv4Char(d[k]) && d[k] != DOT { assert base.IsDigit(d[k]); }
  }

  lemma WrittenOctal(n: nat)
    ensures var p := Written(n, InOctal); IsPart(p) && BaseOf(p) == (Oct, 1) && p[1..] == Octal(n)
  {
    OctalValue(n);
    DigitsAreIPv4(Octal(n), Oct);
    var p := Written(n, InOctal);
    assert p[0] == 0x30 && p[1] == Octal(n)[0] && Oct.IsDigit(Octal(n)[0]);
    forall k | 0 <= k < |p| ensures IsIPv4Char(p[k]) && p[k] != DOT { if k > 0 { assert p[k] == Octal(n)[k - 1]; } }
  }

  lemma WrittenHex(n: nat, capital: bool)
    ensures var p := Written(n, InHex(capital)); IsPart(p) && BaseOf(p) == (Hex, 2) && p[2..] == Hexadecimal(n)
  {
    HexadecimalValue(n);
    DigitsAreIPv4(Hexadecimal(n), Hex);
    var p := Written(n, InHex(capital));
    assert p[0] == 0x30 && p[1] == if capital then 0x58 else 0x78;
    forall k | 0 <= k < |p| ensures IsIPv4Char(p[k]) && p[k] != DOT { if k > 1 { assert p[k] == Hexadecimal(n)[k - 2]; } }
  }

  /** Every number in every base is read as itself, or as too big. */
  lemma WrittenReadsBack(n: nat, notation: Notation)
    ensures IsPart(Written(n, notation))
    ensures PartNumber(Written(n, notation)) == if n <= 0xFFFF_FFFF then Number(n) else TooBig
  {
    match notation
    case InDecimal =>
      DecimalValue(n);
      DigitsAreIPv4(Decimal(n), Dec);
      assert Decimal(n)[0..] == Decimal(n);
    case InOctal =>
      WrittenOctal(n);
      OctalValue(n);
    case InHex(capital) =>
      WrittenHex(n, capital);
      HexadecimalValue(n);
  }

  // ---- Hosts ----------------------------------------------------------------------

  /** A byte for every part but the last, and all that is left of 32 bits for the last. */
  predicate InRange(v: seq<nat>)
    requires 1 <= |v| <= 4
  {
    if |v| == 1 then v[0] < 0x1_0000_0000
    else if |v| == 2 then v[0] < 0x100 && v[1] < 0x100_0000
    else if |v| == 3 then v[0] < 0x100 && v[1] < 0x100 && v[2] < 0x1_0000
    else v[0] < 0x100 && v[1] < 0x100 && v[2] < 0x100 && v[3] < 0x100
  }

  function AddressOf(v: seq<nat>): nat
    requires 1 <= |v| <= 4
  {
    if |v| == 1 then v[0]
    else if |v| == 2 then v[0] * 0x100_0000 + v[1]
    else if |v| == 3 then v[0] * 0x100_0000 + v[1] * 0x1_0000 + v[2]
    else v[0] * 0x100_0000 + v[1] * 0x1_0000 + v[2] * 0x100 + v[3]
  }

  lemma SumIs(v: seq<nat>)
    requires 1 <= |v| <= 4
    ensures Fits(v) <==> InRange(v)
    ensures PositionalSum(v, 0) == AddressOf(v)
  {
    var last := |v| - 1;
    assert PositionalSum(v, last) == v[last];
    if |v| > 1 { assert PositionalSum(v, last - 1) == v[last - 1] * Pow256(3 - (last - 1)) + v[last]; }
    if |v| > 2 { assert PositionalSum(v, last - 2) == v[last - 2] * Pow256(3 - (last - 2)) + PositionalSum(v, last - 1); }
  }

  function AllWritten(v: seq<nat>, notations: seq<Notation>): (parts: seq<bytes>)
    requires |notations| == |v|
    ensures |parts| == |v|
  {
    seq(|v|, k requires 0 <= k < |v| => Written(v[k], notations[k]))
  }

  lemma AllWrittenAreParts(v: seq<nat>, notations: seq<Notation>)
    requires |notations| == |v|
    ensures AllParts(AllWritten(v, notations)) && AllNonempty(AllWritten(v, notations))
    ensures var parts := AllWritten(v, notations);
      forall k :: 0 <= k < |v| ==>
        |parts[k]| > 0 && PartNumber(parts[k]) == if v[k] <= 0xFFFF_FFFF then Number(v[k]) else TooBig
  {
    var parts := AllWritten(v, notations);
    forall k | 0 <= k < |v|
      ensures IsPart(parts[k]) && PartNumber(parts[k]) == if v[k] <= 0xFFFF_FFFF then Number(v[k]) else TooBig
    {
      WrittenReadsBack(v[k], notations[k]);
    }
  }

  /** The host is an address if and only if the numbers are in their ranges, and then that address. */
  predicate StandsFor(verdict: Verdict, v: seq<nat>)
    requires 1 <= |v| <= 4
  {
    if InRange(v) then
      verdict.Address? && verdict.parts == |v| && |verdict.bytes4| == 4 && AddressOf(verdict.bytes4) == AddressOf(v)
    else verdict == Broken
  }

  lemma NumbersStandFor(host: bytes, parts: seq<bytes>, v: seq<nat>)
    requires 1 <= |v| == |parts| <= 4 && Parts(host) == Some(parts)
    requires forall k :: 0 <= k < |v| ==>
      |parts[k]| > 0 && PartNumber(parts[k]) == if v[k] <= 0xFFFF_FFFF then Number(v[k]) else TooBig
    ensures StandsFor(HostNumber(host), v)
  {
    var ns := PartNumbers(parts);
    assert forall k :: 0 <= k < |v| ==> ns[k] == if v[k] <= 0xFFFF_FFFF then Number(v[k]) else TooBig;
    SumIs(v);
    if AllNumbers(ns) {
      assert forall k :: 0 <= k < |v| ==> v[k] <= 0xFFFF_FFFF;
      assert Values(ns) == v;
      if Fits(v) {
        SumFits(v, 0);
        BytesSum(Bytes4(AddressOf(v)));
      }
    } else {
      TooBigIsOutOfRange(v);
    }
  }

  lemma BytesSum(a: bytes)
    requires |a| == 4
    ensures AddressOf(a) == Number4(a)
  {
  }

  lemma TooBigIsOutOfRange(v: seq<nat>)
    requires 1 <= |v| <= 4
    ensures InRange(v) ==> forall k :: 0 <= k < |v| ==> v[k] <= 0xFFFF_FFFF
  {
  }

  /** For every one to four numbers, each in a base of its own, joined by dots. */
  lemma NotationsReadBack(v: seq<nat>, notations: seq<Notation>)
    requires 1 <= |v| == |notations| <= 4
    ensures StandsFor(HostNumber(Join(AllWritten(v, notations))), v)
  {
    AllWrittenAreParts(v, notations);
    JoinHasParts(AllWritten(v, notations));
    NumbersStandFor(Join(AllWritten(v, notations)), AllWritten(v, notations), v);
  }

  // ---- A dot at the end --------------------------------------------------------------

  lemma DotBehindOne(p: bytes)
    requires IsPart(p)
    ensures SplitAtDots(p + [DOT], 0) == [p] + [[]]
  {
    SplitMore(p, []);
    assert p + [DOT] + [] == p + [DOT];
    assert SplitAtDots([], 0) == [[]];
  }

  lemma {:induction false} DotBehindSplits(parts: seq<bytes>)
    requires |parts| > 0 && AllParts(parts)
    ensures SplitAtDots(Join(parts) + [DOT], 0) == parts + [[]] && AllIPv4Chars(Join(parts))
    decreases |parts|
  {
    assert IsPart(parts[0]);
    if |parts| == 1 {
      DotBehindOne(parts[0]);
      assert parts == [parts[0]];
    } else {
      assert AllParts(parts[1..]) by { assert forall k :: 0 <= k < |parts| - 1 ==> parts[1..][k] == parts[k + 1]; }
      DotBehindSplits(parts[1..]);
      SplitMore(parts[0], Join(parts[1..]) + [DOT]);
      assert parts[0] + [DOT] + (Join(parts[1..]) + [DOT]) == Join(parts) + [DOT];
      assert [parts[0]] + (parts[1..] + [[]]) == parts + [[]];
    }
  }

  lemma DotBehindHasParts(parts: seq<bytes>)
    requires 1 <= |parts| <= 4 && AllParts(parts)
    ensures Parts(Join(parts) + [DOT]) == Some(parts)
  {
    DotBehindSplits(parts);
    assert (parts + [[]])[..|parts|] == parts;
    assert forall k :: 0 <= k < |parts| ==> IsPart(parts[k]) && |parts[k]| > 0;
    assert AllIPv4Chars(Join(parts) + [DOT]);
  }

  /** The same with one dot more at the end. */
  lemma NotationsReadBackWithDot(v: seq<nat>, notations: seq<Notation>)
    requires 1 <= |v| == |notations| <= 4
    ensures StandsFor(HostNumber(Join(AllWritten(v, notations)) + [DOT]), v)
  {
    AllWrittenAreParts(v, notations);
    DotBehindHasParts(AllWritten(v, notations));
    NumbersStandFor(Join(AllWritten(v, notations)) + [DOT], AllWritten(v, notations), v);
  }

  // ---- Printing ------------------------------------------------------------------------

  /** An address is printed as four decimal numbers, without leading zeros, and dots between them. */
  lemma PrintedIsDottedDecimal(a: bytes)
    requires |a| == 4
    ensures AddressText(a) == Decimal(a[0]) + Ascii(".") + Decimal(a[1]) + Ascii(".") + Decimal(a[2]) + Ascii(".") + Decimal(a[3])
    ensures forall k :: 0 <= k < 4 ==> var d := Decimal(a[k]);
      && DigitsBelow(d, 10) && Numeral(d, 10) == a[k] && (d[0] as char == '0' ==> |d| == 1)
  {
    var dot := Ascii(".");
    assert dot == [DOT];
    var p0, p1, p2, p3 := Decimal(a[0]), Decimal(a[1]), Decimal(a[2]), Decimal(a[3]);
    assert [p0, p1, p2, p3][1..] == [p1, p2, p3] && [p1, p2, p3][1..] == [p2, p3] && [p2, p3][1..] == [p3];
    assert Join([p2, p3]) == p2 + dot + p3;
    assert Join([p1, p2, p3]) == p1 + dot + (p2 + dot + p3);
    Regroup4(p1, dot, p2 + dot, p3);
    Regroup4(p0, dot, p1 + dot, p2 + dot + p3);
    FourWithDots(p0, p1, p2, p3, dot);
    forall k | 0 <= k < 4
      ensures var d := Decimal(a[k]); DigitsBelow(d, 10) && Numeral(d, 10) == a[k] && (d[0] as char == '0' ==> |d| == 1)
    {
      DecimalValue(a[k]);
      ValueIs(Decimal(a[k]), Dec);
    }
  }

  lemma FourWithDots(p: bytes, q: bytes, r: bytes, s: bytes, dot: bytes)
    ensures p + dot + (q + dot + (r + dot + s)) == p + dot + q + dot + r + dot + s
  {
  }
}
