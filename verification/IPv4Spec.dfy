/** IPv4 literals: what the parts of a host stand for, and how an address is printed. */
module IPv4Spec {
  import opened Bytes
  import opened Numbers

  // ---- One part ------------------------------------------------------------

  datatype Number = NotANumber | TooBig | Number(value: nat)

  /** The base a part announces, and the length of what announces it. */
  function BaseOf(part: bytes): (r: (Base, nat))
    requires |part| > 0
    ensures r.1 <= |part|
  {
    if part[0] != ZERO || |part| == 1 then (Dec, 0)
    else if part[1] == 0x58 || part[1] == 0x78 then (Hex, 2)
    else (Oct, 1)
  }

  /** A part is a number when all of it behind the prefix is digits; the value is that of all these digits. */
  function PartNumber(part: bytes): Number
    requires |part| > 0
  {
    var (base, prefix) := BaseOf(part);
    var digits := part[prefix..];
    if !AllDigits(digits, base) then NotANumber
    else if Value(digits, base) > 0xFFFF_FFFF then TooBig
    else Number(Value(digits, base))
  }

  // ---- The parts of a host -------------------------------------------------

  function NextDot(s: bytes, i: nat): (n: nat)
    requires i <= |s|
    ensures i <= n <= |s| && (n < |s| ==> s[n] == DOT) && forall k :: i <= k < n ==> s[k] != DOT
    decreases |s| - i
  {
    if i == |s| || s[i] == DOT then i else NextDot(s, i + 1)
  }

  /** The parts of s from position begin on. */
  function SplitAtDots(s: bytes, begin: nat): (parts: seq<bytes>)
    requires begin <= |s|
    ensures |parts| > 0
    decreases |s| - begin
  {
    var n := NextDot(s, begin);
    if n == |s| then [s[begin..]] else [s[begin..n]] + SplitAtDots(s, n + 1)
  }

  predicate AllIPv4Chars(s: bytes) { forall k :: 0 <= k < |s| ==> IsIPv4Char(s[k]) }

  predicate AllNonempty(parts: seq<bytes>) { forall k :: 0 <= k < |parts| ==> |parts[k]| > 0 }

  /** An empty last part, behind a dot at the end, does not count. */
  function WithoutEmptyLast(parts: seq<bytes>): seq<bytes> {
    if |parts| > 1 && |parts[|parts| - 1]| == 0 then parts[..|parts| - 1] else parts
  }

  /** One to four nonempty parts of IPv4 characters. */
  function Parts(host: bytes): (r: Option<seq<bytes>>)
    ensures r.Some? ==> 0 < |r.value| <= 4 && AllNonempty(r.value)
  {
    var parts := WithoutEmptyLast(SplitAtDots(host, 0));
    if |host| > 0 && AllIPv4Chars(host) && |parts| <= 4 && AllNonempty(parts) then Some(parts) else None
  }

  // ---- The address ---------------------------------------------------------

  datatype Verdict = Neutral | Broken | Address(bytes4: bytes, parts: nat)

  /** 256 to the n, for the few n that occur. */
  function Pow256(n: nat): nat
    requires n <= 4
  {
    if n == 0 then 1 else if n == 1 then 0x100 else if n == 2 then 0x1_0000
    else if n == 3 then 0x100_0000 else 0x1_0000_0000
  }

  /** Every part but the last fits its own byte, and the last fits all the bytes that are left. */
  predicate Fits(values: seq<nat>)
    requires 0 < |values| <= 4
  {
    && (forall k :: 0 <= k < |values| - 1 ==> values[k] <= 255)
    && values[|values| - 1] < Pow256(5 - |values|)
  }

  /** The positional sum: part k counts 256^(3-k), the last part counts once. */
  function PositionalSum(values: seq<nat>, k: nat): nat
    requires k < |values| <= 4
    decreases |values| - k
  {
    if k == |values| - 1 then values[k] else values[k] * Pow256(3 - k) + PositionalSum(values, k + 1)
  }

  /** The number that four bytes in network order stand for. */
  function Number4(a: bytes): nat
    requires |a| == 4
  {
    ((a[0] as nat * 0x100 + a[1]) * 0x100 + a[2]) * 0x100 + a[3]
  }

  function Bytes4(n: nat): (a: bytes)
    requires n < 0x1_0000_0000
    ensures |a| == 4 && Number4(a) == n
  {
    var n2 := n / 0x100;
    var n1 := n2 / 0x100;
    [n1 / 0x100, n1 % 0x100, n2 % 0x100, n % 0x100]
  }

  function PartNumbers(parts: seq<bytes>): (ns: seq<Number>)
    requires AllNonempty(parts)
    ensures |ns| == |parts|
  {
    seq(|parts|, k requires 0 <= k < |parts| => PartNumber(parts[k]))
  }

  predicate SomeNotANumber(ns: seq<Number>) { exists k :: 0 <= k < |ns| && ns[k].NotANumber? }

  predicate AllNumbers(ns: seq<Number>) { forall k :: 0 <= k < |ns| ==> ns[k].Number? }

  function Values(ns: seq<Number>): (vs: seq<nat>)
    requires AllNumbers(ns)
    ensures |vs| == |ns|
  {
    seq(|ns|, k requires 0 <= k < |ns| => ns[k].value)
  }

  lemma {:induction false} SumFits(values: seq<nat>, k: nat)
    requires k < |values| <= 4 && Fits(values)
    ensures PositionalSum(values, k) < Pow256(4 - k)
    decreases |values| - k
  {
    if k < |values| - 1 { SumFits(values, k + 1); }
  }

  /** DoIPv4AddressToNumber. A part that is no number makes the host NEUTRAL, whatever the other parts are. */
  function HostNumber(host: bytes): (v: Verdict)
    ensures v.Address? ==> |v.bytes4| == 4 && 1 <= v.parts <= 4
  {
    match Parts(host)
    case None => Neutral
    case Some(parts) =>
      var ns := PartNumbers(parts);
      if SomeNotANumber(ns) then Neutral
      else if !AllNumbers(ns) then Broken
      else if !Fits(Values(ns)) then Broken
      else
        SumFits(Values(ns), 0);
        Address(Bytes4(PositionalSum(Values(ns), 0)), |parts|)
  }

  // ---- Printing ------------------------------------------------------------

  function Join(parts: seq<bytes>): bytes
    requires |parts| > 0
  {
    if |parts| == 1 then parts[0] else parts[0] + [DOT] + Join(parts[1..])
  }

  /** AppendIPv4Address. */
  function AddressText(a: bytes): bytes
    requires |a| == 4
  {
    Join([Decimal(a[0]), Decimal(a[1]), Decimal(a[2]), Decimal(a[3])])
  }

  // ---- Printing and reading back -------------------------------------------

  predicate IsPart(p: bytes) { |p| > 0 && AllIPv4Chars(p) && forall k :: 0 <= k < |p| ==> p[k] != DOT }

  predicate AllParts(parts: seq<bytes>) { forall k :: 0 <= k < |parts| ==> IsPart(parts[k]) }

  lemma SliceBehind(a: bytes, r: bytes, i: nat, n: nat)
    requires i <= n <= |r|
    ensures (a + r)[|a| + i..|a| + n] == r[i..n] && (n == |r| ==> (a + r)[|a| + i..] == r[i..])
  {
  }

  lemma NextDotBehind(a: bytes, r: bytes, i: nat)
    requires i <= |r|
    ensures NextDot(a + r, |a| + i) == |a| + NextDot(r, i)
  {
    var s, n := a + r, NextDot(r, i);
    assert forall k :: i <= k < n ==> s[|a| + k] == r[k];
    assert n < |r| ==> s[|a| + n] == DOT;
  }

  lemma {:induction false} SplitBehind(a: bytes, r: bytes, i: nat)
    requires i <= |r|
    ensures SplitAtDots(a + r, |a| + i) == SplitAtDots(r, i)
    decreases |r| - i
  {
    var s := a + r;
    var n := NextDot(r, i);
    NextDotBehind(a, r, i);
    SliceBehind(a, r, i, n);
    if n < |r| { SplitBehind(a, r, n + 1); }
  }

  lemma SplitMore(p: bytes, rest: bytes)
    requires IsPart(p)
    ensures SplitAtDots(p + [DOT] + rest, 0) == [p] + SplitAtDots(rest, 0)
  {
    var s := p + [DOT] + rest;
    assert s[|p|] == DOT;
    assert forall k :: 0 <= k < |p| ==> s[k] == p[k];
    assert NextDot(s, 0) == |p|;
    assert s[0..|p|] == p;
    SplitBehind(p + [DOT], rest, 0);
  }

  lemma {:induction false} JoinSplits(parts: seq<bytes>)
    requires |parts| > 0 && AllParts(parts)
    ensures SplitAtDots(Join(parts), 0) == parts && AllIPv4Chars(Join(parts)) && |Join(parts)| > 0
    decreases |parts|
  {
    assert IsPart(parts[0]);
    if |parts| > 1 {
      assert AllParts(parts[1..]) by { assert forall k :: 0 <= k < |parts| - 1 ==> parts[1..][k] == parts[k + 1]; }
      JoinSplits(parts[1..]);
      SplitMore(parts[0], Join(parts[1..]));
      assert [parts[0]] + parts[1..] == parts;
    } else {
      assert parts[0][0..] == parts[0];
      assert parts == [parts[0]];
    }
  }

  lemma JoinHasParts(parts: seq<bytes>)
    requires 0 < |parts| <= 4 && AllParts(parts)
    ensures Parts(Join(parts)) == Some(parts)
  {
    JoinSplits(parts);
    assert forall k :: 0 <= k < |parts| ==> IsPart(parts[k]) && |parts[k]| > 0;
  }

  lemma JoinReadsBack(parts: seq<bytes>, values: seq<nat>)
    requires 0 < |parts| <= 4 && AllParts(parts) && |values| == |parts| && Fits(values)
    requires forall k :: 0 <= k < |parts| ==> IsPart(parts[k]) && PartNumber(parts[k]) == Number(values[k])
    ensures PositionalSum(values, 0) < 0x1_0000_0000
    ensures HostNumber(Join(parts)) == Address(Bytes4(PositionalSum(values, 0)), |parts|)
  {
    JoinHasParts(parts);
    SumFits(values, 0);
    var ns := PartNumbers(parts);
    assert forall k :: 0 <= k < |ns| ==> ns[k] == Number(values[k]);
    assert Values(ns) == values;
  }

  lemma DecimalPart(b: byte)
    ensures IsPart(Decimal(b)) && PartNumber(Decimal(b)) == Number(b)
  {
    var p := Decimal(b);
    DecimalValue(b);
    assert p[0..] == p;
  }

  /** Four bytes are determined by the number they make. */
  lemma SameNumberSameBytes(a: bytes, b: bytes)
    requires |a| == |b| == 4 && Number4(a) == Number4(b)
    ensures a == b
  {
    var a2, b2 := (a[0] as nat * 0x100 + a[1]) * 0x100 + a[2], (b[0] as nat * 0x100 + b[1]) * 0x100 + b[2];
    assert a2 == b2 && a[3] == b[3];
    assert a[0] as nat * 0x100 + a[1] == b[0] as nat * 0x100 + b[1] && a[2] == b[2];
    assert a[0] == b[0] && a[1] == b[1];
    assert a == [a[0], a[1], a[2], a[3]] && b == [b[0], b[1], b[2], b[3]];
  }

  lemma FourBytesSum(a: bytes)
    requires |a| == 4
    ensures Fits([a[0], a[1], a[2], a[3]]) && PositionalSum([a[0], a[1], a[2], a[3]], 0) == Number4(a)
  {
    var vs: seq<nat> := [a[0], a[1], a[2], a[3]];
    assert PositionalSum(vs, 3) == a[3];
    assert PositionalSum(vs, 2) == a[2] as nat * 0x100 + a[3];
    assert PositionalSum(vs, 1) == a[1] as nat * 0x1_0000 + PositionalSum(vs, 2);
    assert PositionalSum(vs, 0) == a[0] as nat * 0x100_0000 + PositionalSum(vs, 1);
  }

  /** Every address reads back from its printed form, as four parts. */
  lemma PrintedReadsBack(a: bytes)
    requires |a| == 4
    ensures HostNumber(AddressText(a)) == Address(a, 4)
  {
    DecimalPart(a[0]);
    DecimalPart(a[1]);
    DecimalPart(a[2]);
    DecimalPart(a[3]);
    FourBytesSum(a);
    JoinReadsBack([Decimal(a[0]), Decimal(a[1]), Decimal(a[2]), Decimal(a[3])], [a[0], a[1], a[2], a[3]]);
    SameNumberSameBytes(Bytes4(Number4(a)), a);
  }
}
