/** Host names (url_canon_host.cc) as functions over bytes, and what a second canonicalization makes of them. */
module HostSpec {
  import opened Bytes
  import opened Numbers
  import opened IPv4Spec
  import opened IPv4
  import opened IPv6Print
  import opened IPv6

  // ---- kHostCharLookup -----------------------------------------------------

  datatype HostChar = Disallowed | Escape | Keep(written: byte)

  function Lookup(c: byte): (h: HostChar)
    requires c < 0x80
  {
    if IsUpper(c) then Keep(c + 0x20)
    else if IsDigit(c) || IsLower(c) || c == 0x2B || c == 0x2D || c == DOT || c == COLON
            || c == LBRACKET || c == RBRACKET || c == 0x5F then Keep(c)
    else if (0x20 <= c <= 0x2C && c != PERCENT) || 0x3C <= c <= 0x3E || c == AT || c == 0x60 || 0x7B <= c <= 0x7D then Escape
    else Disallowed
  }

  // ---- DoSimpleHost --------------------------------------------------------

  datatype Simple = Simple(out: bytes, ok: bool, nonAscii: bool)

  /** What one source character, possibly an unescaped one, adds. */
  function Written(v: byte): Simple {
    if v >= 0x80 then Simple([v], true, true)
    else
      match Lookup(v)
      case Disallowed => Simple(Escaped(v), false, false)
      case Escape => Simple(Escaped(v), true, false)
      case Keep(c) => Simple([c], true, false)
  }

  /** One round of the loop: how far it goes, and what it adds. A malformed escape adds "%25" and fails. */
  function HostStep(s: bytes, i: nat): (r: (nat, Simple))
    requires i < |s|
    ensures i < r.0 <= |s| && |r.1.out| > 0
  {
    if s[i] != PERCENT then (i + 1, Written(s[i]))
    else if IsEscapeAt(s, i) then (i + 3, Written(EscapeValue(s, i)))
    else (i + 1, Simple(Escaped(PERCENT), false, false))
  }

  function Both(a: Simple, b: Simple): Simple { Simple(a.out + b.out, a.ok && b.ok, a.nonAscii || b.nonAscii) }

  function SimpleHost(s: bytes, i: nat): Simple
    requires i <= |s|
    decreases |s| - i
  {
    if i == |s| then Simple([], true, false)
    else
      var (j, one) := HostStep(s, i);
      Both(one, SimpleHost(s, j))
  }

  // ---- DoHost --------------------------------------------------------------

  predicate HasEscaped(s: bytes) { exists k :: 0 <= k < |s| && s[k] == PERCENT }

  /** What the IP canonicalizers make of a host name: its family, and the text it is replaced by. */
  datatype IPResult = IPResult(family: Family, text: bytes)

  predicate IsIPv6OnlyChar(c: byte) { c == LBRACKET || c == RBRACKET || c == COLON }

  predicate NoIPv6OnlyChar(s: bytes) { forall k :: 0 <= k < |s| ==> !IsIPv6OnlyChar(s[k]) }

  function Bracketed(a: bytes): bytes
    requires |a| == 16
  {
    [LBRACKET] + AddressText6(a) + [RBRACKET]
  }

  function CanonicalIP(host: bytes): IPResult {
    match HostNumber(host)
    case Address(a, _) => IPResult(IPV4, AddressText(a))
    case Broken => IPResult(BROKEN, host)
    case Neutral =>
      match HostNumber6(host)
      case Some(a) => IPResult(IPV6, Bracketed(a))
      case None => IPResult(if NoIPv6OnlyChar(host) then NEUTRAL else BROKEN, host)
  }

  /** The host is left to the IDN conversion: it has non-ASCII characters, and either no escapes at all, or only
      characters that a host name may have. */
  predicate NeedsIdn(s: bytes) {
    if HasEscaped(s) then SimpleHost(s, 0).ok && SimpleHost(s, 0).nonAscii else !AllAscii(s)
  }

  /** DoHost for a host with characters in it. */
  function CanonicalHost(s: bytes): IPResult
    requires !NeedsIdn(s)
  {
    var simple := SimpleHost(s, 0);
    if simple.ok then CanonicalIP(simple.out) else IPResult(BROKEN, simple.out)
  }

  // ---- A second pass over a simple host --------------------------------------

  lemma {:induction false} SimpleBehind(a: bytes, r: bytes, i: nat)
    requires i <= |r|
    ensures SimpleHost(a + r, |a| + i) == SimpleHost(r, i)
    decreases |r| - i
  {
    if i < |r| {
      var s := a + r;
      assert s[|a| + i] == r[i];
      assert IsEscapeAt(s, |a| + i) == IsEscapeAt(r, i);
      if r[i] == PERCENT && IsEscapeAt(r, i) {
        assert EscapeValue(s, |a| + i) == EscapeValue(r, i);
      }
      SimpleBehind(a, r, HostStep(r, i).0);
    }
  }

  /** What one character adds is read back as itself. */
  lemma WrittenReadsBack(v: byte, rest: bytes)
    ensures var w := Written(v); HostStep(w.out + rest, 0) == (|w.out|, w)
  {
    var w := Written(v);
    var s := w.out + rest;
    if |w.out| == 3 {
      assert IsEscapeAt(s, 0) && EscapeValue(s, 0) == v;
    }
  }

  lemma StepReadsBack(s: bytes, i: nat, rest: bytes)
    requires i < |s|
    ensures var one := HostStep(s, i).1; HostStep(one.out + rest, 0) == (|one.out|, one)
  {
    if s[i] != PERCENT {
      WrittenReadsBack(s[i], rest);
    } else if IsEscapeAt(s, i) {
      WrittenReadsBack(EscapeValue(s, i), rest);
    } else {
      assert Written(PERCENT) == Simple(Escaped(PERCENT), false, false);
      WrittenReadsBack(PERCENT, rest);
    }
  }

  /** A second pass gives the same text, the same success and the same answer about non-ASCII characters. */
  lemma {:induction false} SimpleHostIdempotent(s: bytes, i: nat)
    requires i <= |s|
    ensures SimpleHost(SimpleHost(s, i).out, 0) == SimpleHost(s, i)
    decreases |s| - i
  {
    if i < |s| {
      var (j, one) := HostStep(s, i);
      var rest := SimpleHost(s, j);
      SimpleHostIdempotent(s, j);
      StepReadsBack(s, i, rest.out);
      SimpleBehind(one.out, rest.out, 0);
    }
  }

  // ---- A second pass over a whole host ---------------------------------------

  predicate IsKept(c: byte) { c < 0x80 && Lookup(c) == Keep(c) }

  predicate AllKept(s: bytes) { forall k :: 0 <= k < |s| ==> IsKept(s[k]) }

  /** A text of characters that stay as they are. */
  lemma {:induction false} KeptIsSimple(s: bytes, i: nat)
    requires i <= |s| && AllKept(s)
    ensures SimpleHost(s, i) == Simple(s[i..], true, false)
    decreases |s| - i
  {
    if i < |s| {
      assert IsKept(s[i]);
      assert HostStep(s, i) == (i + 1, Simple([s[i]], true, false));
      KeptIsSimple(s, i + 1);
      assert [s[i]] + s[i + 1..] == s[i..];
    }
  }

  lemma KeptNeedsNoIdn(s: bytes)
    requires AllKept(s)
    ensures AllAscii(s) && !HasEscaped(s) && !NeedsIdn(s)
  {
    forall k | 0 <= k < |s| ensures s[k] < 0x80 && s[k] != PERCENT { assert IsKept(s[k]); }
  }

  lemma DecimalIsKept(b: byte)
    ensures AllKept(Decimal(b))
  {
    DecimalValue(b);
    forall k | 0 <= k < |Decimal(b)| ensures IsKept(Decimal(b)[k]) { assert Dec.IsDigit(Decimal(b)[k]); }
  }

  lemma KeptOfParts(a: bytes, b: bytes)
    requires AllKept(a) && AllKept(b)
    ensures AllKept(a + b)
  {
    forall k | 0 <= k < |a + b| ensures IsKept((a + b)[k]) {
      if k < |a| { assert IsKept(a[k]); } else { assert IsKept(b[k - |a|]); }
    }
  }

  lemma {:induction false} JoinIsKept(parts: seq<bytes>)
    requires |parts| > 0 && forall k :: 0 <= k < |parts| ==> AllKept(parts[k])
    ensures AllKept(Join(parts))
    decreases |parts|
  {
    assert AllKept(parts[0]);
    if |parts| > 1 {
      JoinIsKept(parts[1..]);
      assert AllKept([DOT]);
      KeptOfParts(parts[0], [DOT]);
      KeptOfParts(parts[0] + [DOT], Join(parts[1..]));
    }
  }

  lemma IPv4TextIsKept(a: bytes)
    requires |a| == 4
    ensures AllKept(AddressText(a))
  {
    DecimalIsKept(a[0]);
    DecimalIsKept(a[1]);
    DecimalIsKept(a[2]);
    DecimalIsKept(a[3]);
    JoinIsKept([Decimal(a[0]), Decimal(a[1]), Decimal(a[2]), Decimal(a[3])]);
  }

  lemma HexadecimalIsKept(w: nat)
    ensures AllKept(Hexadecimal(w))
  {
    HexadecimalValue(w);
    forall k | 0 <= k < |Hexadecimal(w)| ensures IsKept(Hexadecimal(w)[k]) {
      assert Hex.IsDigit(Hexadecimal(w)[k]);
    }
  }

  lemma {:induction false} PrintIsKept(gs: seq<bytes>, r: Range, i: nat)
    requires i <= |gs| && r.begin + r.len <= |gs| && forall k :: 0 <= k < |gs| ==> AllKept(gs[k])
    ensures AllKept(PrintFrom(gs, r, i))
    decreases |gs| - i
  {
    if i == |gs| {
    } else if i == r.begin && r.len > 0 {
      PrintIsKept(gs, r, i + r.len);
      assert AllKept([COLON, COLON]) && AllKept([COLON]);
      KeptOfParts(if i == 0 then [COLON, COLON] else [COLON], PrintFrom(gs, r, i + r.len));
    } else {
      PrintIsKept(gs, r, i + 1);
      var colon := if i + 1 < |gs| then [COLON] else [];
      assert AllKept(colon) && AllKept(gs[i]);
      KeptOfParts(colon, PrintFrom(gs, r, i + 1));
      KeptOfParts(gs[i], colon + PrintFrom(gs, r, i + 1));
    }
  }

  lemma IPv6TextIsKept(a: bytes)
    requires |a| == 16
    ensures AllKept(Bracketed(a))
  {
    var ws := Words(a);
    forall k | 0 <= k < 8 ensures AllKept(HexGroups(ws)[k]) { HexadecimalIsKept(ws[k]); }
    ContractionIsLeftmostLongest(ws);
    PrintIsKept(HexGroups(ws), ContractionRange(ws), 0);
    assert AllKept([LBRACKET]) && AllKept([RBRACKET]);
    KeptOfParts([LBRACKET], AddressText6(a));
    KeptOfParts([LBRACKET] + AddressText6(a), [RBRACKET]);
  }

  lemma BracketIsNoIPv4(s: bytes)
    requires |s| > 0 && s[0] == LBRACKET
    ensures HostNumber(s) == Neutral
  {
    assert !IsIPv4Char(s[0]);
  }

  /** A printed address is recognized again, and printed the same. */
  lemma AddressIsFixed(host: bytes)
    requires CanonicalIP(host).family == IPV4 || CanonicalIP(host).family == IPV6
    ensures var r := CanonicalIP(host);
      AllKept(r.text) && CanonicalIP(r.text) == r
  {
    match HostNumber(host) {
      case Address(a, _) =>
        PrintedReadsBack(a);
        IPv4TextIsKept(a);
      case Broken =>
      case Neutral =>
        var a := HostNumber6(host).value;
        var t := Bracketed(a);
        IPv6TextIsKept(a);
        BracketIsNoIPv4(t);
        PrintedReadsBack6(a);
        assert t[1..|t| - 1] == AddressText6(a);
    }
  }

  /** A simple host that fails has an escape in it that a second pass decodes. */
  lemma {:induction false} FailureIsEscaped(s: bytes, i: nat)
    requires i <= |s| && !SimpleHost(s, i).ok
    ensures HasEscaped(SimpleHost(s, i).out)
    decreases |s| - i
  {
    var (j, one) := HostStep(s, i);
    var rest := SimpleHost(s, j);
    if !one.ok {
      assert (one.out + rest.out)[0] == PERCENT;
    } else {
      FailureIsEscaped(s, j);
      var k :| 0 <= k < |rest.out| && rest.out[k] == PERCENT;
      assert (one.out + rest.out)[|one.out| + k] == PERCENT;
    }
  }

  lemma AsciiOfParts(a: bytes, b: bytes)
    ensures AllAscii(a + b) <==> AllAscii(a) && AllAscii(b)
  {
    assert forall k :: 0 <= k < |a| ==> (a + b)[k] == a[k];
    assert forall k :: 0 <= k < |b| ==> (a + b)[|a| + k] == b[k];
  }

  lemma StepIsAsciiOrNot(s: bytes, i: nat)
    requires i < |s|
    ensures var one := HostStep(s, i).1; AllAscii(one.out) <==> !one.nonAscii
  {
    var one := HostStep(s, i).1;
    assert one.nonAscii ==> one.out[0] >= 0x80;
  }

  lemma {:induction false} AsciiIffNoNonAscii(s: bytes, i: nat)
    requires i <= |s|
    ensures AllAscii(SimpleHost(s, i).out) <==> !SimpleHost(s, i).nonAscii
    decreases |s| - i
  {
    if i < |s| {
      var (j, one) := HostStep(s, i);
      AsciiIffNoNonAscii(s, j);
      StepIsAsciiOrNot(s, i);
      AsciiOfParts(one.out, SimpleHost(s, j).out);
    }
  }

  /** The non-ASCII flag is clear for an input of ASCII characters without escapes. */
  lemma {:induction false} AsciiStaysAscii(s: bytes, i: nat)
    requires i <= |s| && AllAscii(s) && !HasEscaped(s)
    ensures !SimpleHost(s, i).nonAscii
    decreases |s| - i
  {
    if i < |s| {
      AsciiStaysAscii(s, HostStep(s, i).0);
    }
  }

  /** Validity does not depend on how often the canonicalizer runs: for every host that is not left to the IDN
      conversion, a second run gives the same text and the same family. */
  lemma HostIdempotent(s: bytes)
    requires !NeedsIdn(s)
    ensures var r := CanonicalHost(s);
      !NeedsIdn(r.text) && CanonicalHost(r.text) == r
  {
    var simple := SimpleHost(s, 0);
    var r := CanonicalHost(s);
    SimpleHostIdempotent(s, 0);
    if !simple.ok {
      FailureIsEscaped(s, 0);
    } else if r.family == IPV4 || r.family == IPV6 {
      AddressIsFixed(simple.out);
      KeptIsSimple(r.text, 0);
      KeptNeedsNoIdn(r.text);
      assert r.text[0..] == r.text;
    } else {
      if !HasEscaped(s) { AsciiStaysAscii(s, 0); }
      AsciiIffNoNonAscii(s, 0);
      assert r.text == simple.out;
    }
  }

  /** An ordinary name: characters that stay as they are, no bracket or colon, and one that no IPv4 address has. */
  predicate IsPlainName(s: bytes) {
    AllKept(s) && NoIPv6OnlyChar(s) && exists k :: 0 <= k < |s| && !IsIPv4Char(s[k])
  }

  lemma PlainNameIsKept(s: bytes)
    requires IsPlainName(s)
    ensures !NeedsIdn(s) && CanonicalHost(s) == IPResult(NEUTRAL, s)
  {
    KeptNeedsNoIdn(s);
    KeptIsSimple(s, 0);
    assert s[0..] == s;
  }
}
