/** The IPv4 half of url_canon_ip.cc: its loops and buffers against IPv4Spec. */
module IPv4 {
  import opened Bytes
  import opened CanonOutputs
  import opened Components
  import opened Numbers
  import opened IPv4Spec

  // ---- IPv4ComponentToNumber -----------------------------------------------

  const MAX_COMPONENT_LEN := 16

  /** _strtoui64 on a text that is all digits of the base. */
  function StrToUI64(text: bytes, base: Base): nat
    requires AllDigits(text, base) && |text| <= MAX_COMPONENT_LEN
    ensures StrToUI64(text, base) < 0x1_0000_0000_0000_0000
  {
    FitsIn64Bits(text, base);
    Value(text, base)
  }

  lemma NoSmaller(b: nat, x: nat)
    requires b > 0
    ensures x <= b * x
  {
  }

  lemma PowMonotone(b: nat, m: nat, n: nat)
    requires b > 0 && m <= n
    ensures Pow(b, m) <= Pow(b, n)
  {
    if m < n {
      PowMonotone(b, m, n - 1);
      NoSmaller(b, Pow(b, n - 1));
    }
  }

  lemma PowersOfSixteen()
    ensures Pow(8, 15) == 0x2000_0000_0000 && Pow(10, 15) == 1_000_000_000_000_000
    ensures Pow(16, 15) == 0x1000_0000_0000_0000 && Pow(16, 16) == 0x1_0000_0000_0000_0000
    ensures Pow(8, 16) == 0x1_0000_0000_0000 && Pow(10, 16) == 10_000_000_000_000_000
  {
    assert Pow(8, 3) == 0x200 && Pow(8, 6) == 0x4_0000 && Pow(8, 9) == 0x800_0000 && Pow(8, 12) == 0x10_0000_0000;
    assert Pow(10, 3) == 1000 && Pow(10, 6) == 1000000 && Pow(10, 9) == 1000000000 && Pow(10, 12) == 1000000000000;
    assert Pow(16, 3) == 0x1000 && Pow(16, 6) == 0x100_0000 && Pow(16, 9) == 0x10_0000_0000;
    assert Pow(16, 12) == 0x1_0000_0000_0000;
  }

  lemma FitsIn64Bits(text: bytes, base: Base)
    requires AllDigits(text, base) && |text| <= MAX_COMPONENT_LEN
    ensures Value(text, base) < 0x1_0000_0000_0000_0000
  {
    ValueBound(text, base);
    PowMonotone(base.Radix(), |text|, 16);
    PowersOfSixteen();
  }

  /** Sixteen digits without a leading zero exceed 32 bits already, and so does any number that begins with them. */
  lemma TruncationDecides(digits: bytes, base: Base)
    requires AllDigits(digits, base) && |digits| > MAX_COMPONENT_LEN && digits[0] != ZERO
    ensures Value(digits[..MAX_COMPONENT_LEN], base) > 0xFFFF_FFFF && Value(digits, base) > 0xFFFF_FFFF
  {
    var kept := digits[..MAX_COMPONENT_LEN];
    ValueAtLeast(kept, base);
    ValueOfPrefix(digits, MAX_COMPONENT_LEN, base);
    PowersOfSixteen();
  }

  /** All characters from begin on must be digits. Sixteen of them at most are kept in the buffer. */
  method CopyDigits(part: bytes, begin: nat, base: Base, buf: array<byte>) returns (ok: bool, dest: nat)
    requires begin <= |part| && buf.Length == MAX_COMPONENT_LEN + 1
    modifies buf
    ensures ok <==> AllDigits(part[begin..], base)
    ensures ok ==> dest == if |part| - begin < MAX_COMPONENT_LEN then |part| - begin else MAX_COMPONENT_LEN
    ensures ok ==> buf[..dest] == part[begin..][..dest]
  {
    dest := 0;
    var i := begin;
    while i < |part|
      invariant begin <= i <= |part| && dest <= MAX_COMPONENT_LEN
      invariant dest == if i - begin < MAX_COMPONENT_LEN then i - begin else MAX_COMPONENT_LEN
      invariant buf[..dest] == part[begin..begin + dest]
      invariant forall k :: begin <= k < i ==> base.IsDigit(part[k])
    {
      var input := part[i];
      if !base.IsDigit(input) {
        assert part[begin..][i - begin] == input;
        return false, dest;
      }
      if dest < MAX_COMPONENT_LEN {
        buf[dest] := input;
        dest := dest + 1;
      }
      i := i + 1;
    }
    ok := true;
  }

  /** The part is taken as a text. A long run of digits is checked to its end but only its first sixteen count. */
  method ComponentToNumber(part: bytes) returns (number: Number)
    requires |part| > 0
    ensures number == PartNumber(part)
  {
    var (base, basePrefixLen) := BaseOf(part);
    var prefix := basePrefixLen;
    while prefix < |part| && part[prefix] == ZERO
      invariant basePrefixLen <= prefix <= |part|
      invariant forall k :: basePrefixLen <= k < prefix ==> part[k] == ZERO
    {
      prefix := prefix + 1;
    }
    var buf := new byte[MAX_COMPONENT_LEN + 1];
    var ok, dest := CopyDigits(part, prefix, base, buf);
    AllPartDigits(part, basePrefixLen, prefix, base);
    if !ok {
      return NotANumber;
    }
    ghost var significant := part[prefix..];
    var num := StrToUI64(buf[..dest], base);
    if |significant| > MAX_COMPONENT_LEN {
      TruncationDecides(significant, base);
    } else {
      assert significant[..dest] == significant;
    }
    return if num > 0xFFFF_FFFF then TooBig else Number(num);
  }

  /** The zeros that are passed over change neither whether all is digits nor the value. */
  lemma AllPartDigits(part: bytes, begin: nat, prefix: nat, base: Base)
    requires begin <= prefix <= |part|
    requires forall k :: begin <= k < prefix ==> part[k] == ZERO
    ensures AllDigits(part[begin..], base) <==> AllDigits(part[prefix..], base)
    ensures AllDigits(part[prefix..], base) ==> Value(part[begin..], base) == Value(part[prefix..], base)
  {
    var digits := part[begin..];
    var significant := part[prefix..];
    assert significant == digits[prefix - begin..];
    assert forall k :: 0 <= k < |significant| ==> significant[k] == digits[prefix - begin + k];
    if AllDigits(significant, base) {
      assert forall k :: prefix - begin <= k < |digits| ==> digits[k] == significant[k - (prefix - begin)];
      assert AllDigits(digits, base);
      LeadingZeros(digits, prefix - begin, base);
    }
  }

  // ---- AppendIPv4Address ---------------------------------------------------

  /** The rest of the printed address from byte k on, with the dot that stands before it. */
  lemma JoinTail(parts: seq<bytes>, k: nat)
    requires k + 1 < |parts|
    ensures Join(parts[k..]) == parts[k] + [DOT] + Join(parts[k + 1..])
  {
    assert parts[k..][1..] == parts[k + 1..] && parts[k..][0] == parts[k];
  }

  /** One more part in the output. */
  lemma JoinedBehind(text: bytes, parts: seq<bytes>, i: nat)
    requires |parts| == 4 && i < 4
    ensures text + Join(parts[i..]) == if i < 3 then text + parts[i] + [DOT] + Join(parts[i + 1..]) else text + parts[i]
  {
    if i < 3 { JoinTail(parts, i); } else { assert parts[3..] == [parts[3]]; }
  }

  method AppendIPv4Address(address: bytes, output: CanonOutput)
    requires |address| == 4
    modifies output
    ensures output.text == old(output.text) + AddressText(address)
  {
    ghost var before := output.text;
    ghost var parts := [Decimal(address[0]), Decimal(address[1]), Decimal(address[2]), Decimal(address[3])];
    assert parts[0..] == parts;
    for i := 0 to 4
      invariant before + AddressText(address) == if i < 4 then output.text + Join(parts[i..]) else output.text
    {
      ghost var was := output.text;
      var str := Decimal(address[i]);
      PushEach(str, output);
      JoinedBehind(was, parts, i);
      if i != 3 {
        output.PushBack(DOT);
      }
    }
  }

  // ---- FindIPv4Components --------------------------------------------------

  /** The texts of the first n ranges. */
  function Texts(spec: bytes, components: seq<Component>): (texts: seq<bytes>)
    requires forall k :: 0 <= k < |components| ==> components[k].Within(spec) && components[k].IsValid()
    ensures |texts| == |components|
  {
    seq(|components|, k requires 0 <= k < |components| => components[k].Text(spec).value)
  }

  /** The scan of a host at position i: the parts before begin are found, and none of them is empty. */
  ghost predicate Scanned(s: bytes, found: seq<bytes>, begin: nat, i: nat) {
    && begin <= i <= |s| && AllNonempty(found) && (|found| == 0 ==> begin == 0)
    && SplitAtDots(s, 0) == found + SplitAtDots(s, begin)
    && (forall k :: begin <= k < i ==> s[k] != DOT)
    && (forall k :: 0 <= k < i ==> IsIPv4Char(s[k]))
  }

  lemma ScannedSplit(s: bytes, found: seq<bytes>, begin: nat, i: nat)
    requires Scanned(s, found, begin, i) && (i < |s| ==> s[i] == DOT)
    ensures i == |s| ==> SplitAtDots(s, 0) == found + [s[begin..]]
    ensures i < |s| ==> SplitAtDots(s, 0) == (found + [s[begin..i]]) + SplitAtDots(s, i + 1)
  {
    assert NextDot(s, begin) == i;
  }

  lemma ScannedPart(s: bytes, found: seq<bytes>, begin: nat, i: nat)
    requires Scanned(s, found, begin, i) && i < |s| && s[i] == DOT && begin < i
    ensures Scanned(s, found + [s[begin..i]], i + 1, i + 1)
  {
    ScannedSplit(s, found, begin, i);
  }

  lemma OnlyEmptyHasEmptyPart(s: bytes, begin: nat)
    requires begin < |s|
    ensures SplitAtDots(s, begin) != [[]]
  {
    var n := NextDot(s, begin);
    if n == |s| {
      assert SplitAtDots(s, begin)[0] == s[begin..];
    } else {
      assert |SplitAtDots(s, begin)| > 1;
    }
  }

  /** An empty part that is not the last one spoils the host; so does a fifth part. */
  lemma EmptyPartSpoils(host: bytes, done: seq<bytes>, rest: seq<bytes>)
    requires SplitAtDots(host, 0) == done + rest && |rest| > 0
    requires (exists k :: 0 <= k < |done| && |done[k]| == 0) || (|done| == 4 && rest != [[]])
    ensures Parts(host) == None
  {
    var parts := done + rest;
    var kept := WithoutEmptyLast(parts);
    if k :| 0 <= k < |done| && |done[k]| == 0 {
      assert kept[k] == done[k];
    } else if |rest| == 1 {
      assert rest == [rest[0]];
    }
  }

  /** Two dots in a row, a dot at the beginning, or a fifth part. */
  lemma SpoiltHost(s: bytes, found: seq<bytes>, begin: nat, i: nat)
    requires Scanned(s, found, begin, i) && i < |s| && s[i] == DOT
    requires i == begin || (|found| == 3 && i + 1 < |s|)
    ensures Parts(s) == None
  {
    ScannedSplit(s, found, begin, i);
    var done := found + [s[begin..i]];
    assert done[|found|] == s[begin..i];
    if i + 1 < |s| { OnlyEmptyHasEmptyPart(s, i + 1); }
    EmptyPartSpoils(s, done, SplitAtDots(s, i + 1));
  }

  /** The end of the host, with or without characters since the last dot. */
  lemma ScannedAll(s: bytes, found: seq<bytes>, begin: nat)
    requires Scanned(s, found, begin, |s|) && |s| > 0
    requires if begin < |s| then |found| <= 3 else 0 < |found| <= 4
    ensures Parts(s) == Some(found + if begin < |s| then [s[begin..]] else [])
  {
    ScannedSplit(s, found, begin, |s|);
    var parts := found + [s[begin..]];
    if begin == |s| {
      assert WithoutEmptyLast(parts) == found == found + [];
    } else {
      assert WithoutEmptyLast(parts) == parts;
    }
  }

  /** The loop of FindIPv4Components over texts: the part under way begins at begin, i is the next character. */
  function FindParts(s: bytes, begin: nat, i: nat, found: seq<bytes>): (r: Option<seq<bytes>>)
    requires begin <= i <= |s| && |found| <= 3
    decreases |s| - i
  {
    if i == |s| || s[i] == DOT then
      var part := s[begin..i];
      if |part| == 0 && (i < |s| || |found| == 0) then None
      else if i == |s| then Some(if |part| == 0 then found else found + [part])
      else if |found| < 3 then FindParts(s, i + 1, i + 1, found + [part])
      else if i + 1 == |s| then Some(found + [part])
      else None
    else if IsIPv4Char(s[i]) then FindParts(s, begin, i + 1, found)
    else None
  }

  lemma FindLastPart(s: bytes, begin: nat, found: seq<bytes>)
    requires Scanned(s, found, begin, |s|) && |found| <= 3 && |s| > 0
    ensures FindParts(s, begin, |s|, found) == Parts(s)
  {
    ScannedAll(s, found, begin);
    assert s[begin..|s|] == s[begin..] && found + [] == found;
  }

  lemma {:induction false} FindPartsIsParts(s: bytes, begin: nat, i: nat, found: seq<bytes>)
    requires Scanned(s, found, begin, i) && |found| <= 3 && |s| > 0
    ensures FindParts(s, begin, i, found) == Parts(s)
    decreases |s| - i
  {
    if i == |s| {
      FindLastPart(s, begin, found);
    } else if s[i] == DOT {
      if i == begin || (|found| == 3 && i + 1 < |s|) {
        SpoiltHost(s, found, begin, i);
      } else if |found| < 3 {
        ScannedPart(s, found, begin, i);
        FindPartsIsParts(s, i + 1, i + 1, found + [s[begin..i]]);
      } else {
        ScannedPart(s, found, begin, i);
        ScannedAll(s, found + [s[begin..i]], i + 1);
      }
    } else if IsIPv4Char(s[i]) {
      FindPartsIsParts(s, begin, i + 1, found);
    }
  }

  predicate AllWithin(spec: bytes, components: seq<Component>) {
    forall k :: 0 <= k < |components| ==> components[k].Within(spec) && components[k].IsValid()
  }

  lemma OneMoreText(spec: bytes, components: seq<Component>, c: Component)
    requires AllWithin(spec, components) && c.Within(spec) && c.IsValid()
    ensures AllWithin(spec, components + [c])
    ensures Texts(spec, components + [c]) == Texts(spec, components) + [c.Text(spec).value]
  {
  }

  /** The ranges stand for the parts, the entries behind them for nothing. */
  ghost predicate Hold(spec: bytes, components: seq<Component>, parts: seq<bytes>) {
    && |components| == 4 && |parts| <= 4
    && AllWithin(spec, components[..|parts|]) && Texts(spec, components[..|parts|]) == parts
    && forall k :: |parts| <= k < 4 ==> components[k].Within(spec) && components[k].len <= 0
  }

  method Record(spec: bytes, components: array<Component>, cur: nat, c: Component, ghost found: seq<bytes>)
    requires cur < components.Length && c.Within(spec) && c.IsValid()
    requires AllWithin(spec, components[..cur]) && Texts(spec, components[..cur]) == found
    modifies components
    ensures AllWithin(spec, components[..cur + 1])
    ensures Texts(spec, components[..cur + 1]) == found + [c.Text(spec).value]
  {
    components[cur] := c;
    assert components[..cur + 1] == old(components[..cur]) + [c];
    OneMoreText(spec, old(components[..cur]), c);
  }

  /** Fill in any unused entries. The last one in use may be empty. */
  method FillUnused(spec: bytes, components: array<Component>, from: nat, ghost parts: seq<bytes>)
    requires components.Length == 4 && from <= 4 && AllWithin(spec, components[..from])
    requires Texts(spec, components[..from]) == parts || Texts(spec, components[..from]) == parts + [[]]
    modifies components
    ensures Hold(spec, components[..], parts)
  {
    ghost var texts := Texts(spec, components[..from]);
    assert from > |parts| ==> texts[|parts|] == [];
    var cur := from;
    while cur < 4
      invariant from <= cur <= 4 && components[..from] == old(components[..from])
      invariant forall k :: from <= k < cur ==> components[k] == NO_COMPONENT
    {
      components[cur] := NO_COMPONENT;
      cur := cur + 1;
    }
    assert forall k :: 0 <= k < from ==> components[k] == components[..from][k];
    assert components[..][..|parts|] == components[..from][..|parts|];
    assert Texts(spec, components[..from])[..|parts|] == parts;
    assert Texts(spec, components[..][..|parts|]) == parts;
  }

  /** The loop itself. Ranges count from the beginning of the host. */
  method FindRanges(s: bytes, components: array<Component>) returns (ok: bool, cur: nat)
    requires |s| > 0 && components.Length == 4
    modifies components
    ensures ok <==> FindParts(s, 0, 0, []).Some?
    ensures ok ==> cur <= 4 && AllWithin(s, components[..cur])
    ensures ok ==> var parts := FindParts(s, 0, 0, []).value;
      Texts(s, components[..cur]) == parts || Texts(s, components[..cur]) == parts + [[]]
  {
    ghost var found: seq<bytes> := [];
    ghost var final := FindParts(s, 0, 0, []);
    cur := 0;
    var begin := 0;
    var i := 0;
    while true
      invariant begin <= i <= |s| && cur == |found| <= 3
      invariant FindParts(s, begin, i, found) == final
      invariant AllWithin(s, components[..cur]) && Texts(s, components[..cur]) == found
      decreases |s| - i
    {
      if i >= |s| || s[i] == DOT {
        var componentLen := i - begin;
        Record(s, components, cur, Component(begin, componentLen), found);
        cur := cur + 1;
        if componentLen == 0 && (i < |s| || cur == 1) {
          return false, cur;
        }
        if i >= |s| {
          break;
        }
        if cur == 4 {
          if s[i] == DOT && i + 1 == |s| {
            break;
          }
          return false, cur;
        }
        found := found + [s[begin..i]];
        begin := i + 1;
      } else if !IsIPv4Char(s[i]) {
        return false, cur;
      }
      i := i + 1;
    }
    return true, cur;
  }

  /** The four ranges are written as the scan finds them, the unused ones last. The array has four entries and no
      more, and the scan stops before it would write a fifth. */
  method FindIPv4Components(s: bytes, components: array<Component>) returns (ok: bool)
    requires components.Length == 4
    modifies components
    ensures ok <==> Parts(s).Some?
    ensures ok ==> Hold(s, components[..], Parts(s).value)
  {
    if |s| == 0 {
      return false;
    }
    assert s[0..] == s;
    FindPartsIsParts(s, 0, 0, []);
    var cur;
    ok, cur := FindRanges(s, components);
    if ok {
      FillUnused(s, components, cur, Parts(s).value);
    }
  }

  // ---- IPv4AddressToNumber -------------------------------------------------

  function Octets(a: bytes): (vs: seq<nat>)
    requires |a| == 4
  {
    [a[0], a[1], a[2], a[3]]
  }

  /** What the last value leaves behind when its low bytes are taken away from the right. */
  predicate Consumed(a: bytes, i: int, lastValue: nat, original: nat)
    requires |a| == 4 && -1 <= i <= 3
  {
    original == lastValue * Pow256(3 - i) + if i == 3 then 0 else PositionalSum(Octets(a), i + 1)
  }

  lemma ConsumeOne(a: bytes, i: nat, lastValue: nat, original: nat)
    requires |a| == 4 && i <= 3 && Consumed(a, i, lastValue, original)
    ensures Consumed(a[i := lastValue % 0x100], i - 1, lastValue / 0x100, original)
  {
    var b := a[i := lastValue % 0x100];
    var v := Octets(b);
    assert i < 3 ==> PositionalSum(v, i + 1) == PositionalSum(Octets(a), i + 1) by {
      SameTail(Octets(a), v, i + 1);
    }
    assert PositionalSum(v, i) == v[i] * Pow256(3 - i) + if i == 3 then 0 else PositionalSum(v, i + 1);
    assert lastValue == lastValue / 0x100 * 0x100 + lastValue % 0x100;
    if i == 3 {
    } else if i == 2 {
    } else if i == 1 {
    } else {
    }
  }

  lemma {:induction false} SameTail(u: seq<nat>, v: seq<nat>, k: nat)
    requires |u| == |v| == 4 && (k < 4 ==> u[k..] == v[k..])
    ensures k < 4 ==> PositionalSum(u, k) == PositionalSum(v, k)
    decreases 4 - k
  {
    if k < 4 {
      assert u[k] == u[k..][0] && v[k] == v[k..][0];
      assert u[k + 1..] == u[k..][1..] && v[k + 1..] == v[k..][1..];
      SameTail(u, v, k + 1);
    }
  }

  /** The bytes before the last value are the values themselves, so the two sums agree. */
  lemma {:induction false} SumsAgree(values: seq<nat>, a: bytes, k: nat)
    requires 0 < |values| <= 4 && |a| == 4 && k < |values|
    requires forall j :: 0 <= j < |values| - 1 ==> a[j] == values[j]
    requires PositionalSum(Octets(a), |values| - 1) == values[|values| - 1]
    ensures PositionalSum(values, k) == PositionalSum(Octets(a), k)
    decreases |values| - k
  {
    if k < |values| - 1 { SumsAgree(values, a, k + 1); }
  }

  lemma OctetsFit(a: bytes)
    requires |a| == 4
    ensures Fits(Octets(a)) && Number4(a) == PositionalSum(Octets(a), 0)
  {
    FourBytesSum(a);
  }

  /** The last value into the bytes from first to 3, from the right; what is left of it is returned. */
  method PackLast(value: nat, first: nat, address: array<byte>, offset: nat) returns (residue: nat)
    requires first <= 3 && offset + 4 <= address.Length
    modifies address
    ensures Consumed(address[offset..offset + 4], first - 1, residue, value)
    ensures address[..offset + first] == old(address[..offset + first])
    ensures address[offset + 4..] == old(address[offset + 4..])
  {
    residue := value;
    var i: int := 3;
    while i >= first
      invariant first - 1 <= i <= 3
      invariant Consumed(address[offset..offset + 4], i, residue, value)
      invariant address[..offset + first] == old(address[..offset + first])
      invariant address[offset + 4..] == old(address[offset + 4..])
    {
      ghost var a: bytes := address[offset..offset + 4];
      ConsumeOne(a, i, residue, value);
      address[offset + i] := residue % 0x100;
      assert address[offset..offset + 4] == a[i := (residue % 0x100) as byte];
      residue := residue / 0x100;
      i := i - 1;
    }
  }

  /** The bytes and the residue decide whether the values fit, and are the positional sum if they do. */
  lemma PackDecides(values: seq<nat>, a: bytes, residue: nat)
    requires 0 < |values| <= 4 && |a| == 4
    requires forall j :: 0 <= j < |values| - 1 ==> values[j] <= 255 && a[j] == values[j]
    requires Consumed(a, |values| - 2, residue, values[|values| - 1])
    ensures residue == 0 <==> Fits(values)
    ensures residue == 0 ==> PositionalSum(values, 0) < 0x1_0000_0000 && a == Bytes4(PositionalSum(values, 0))
  {
    var n := |values|;
    OctetsFit(a);
    SumFits(Octets(a), n - 1);
    if residue != 0 {
      assert residue * Pow256(5 - n) >= Pow256(5 - n);
    } else {
      SumsAgree(values, a, 0);
      SumFits(values, 0);
      SameNumberSameBytes(a, Bytes4(PositionalSum(values, 0)));
    }
  }

  /** The values into four bytes; false when one of them does not fit. */
  method Pack(values: seq<nat>, address: array<byte>, offset: nat) returns (ok: bool)
    requires 0 < |values| <= 4 && offset + 4 <= address.Length
    modifies address
    ensures ok <==> Fits(values)
    ensures ok ==> PositionalSum(values, 0) < 0x1_0000_0000
    ensures ok ==> address[offset..offset + 4] == Bytes4(PositionalSum(values, 0))
    ensures address[..offset] == old(address[..offset]) && address[offset + 4..] == old(address[offset + 4..])
  {
    var n := |values|;
    var k := 0;
    while k < n - 1
      invariant k <= n - 1
      invariant forall j :: 0 <= j < k ==> values[j] <= 255 && address[offset..offset + 4][j] == values[j]
      invariant address[..offset] == old(address[..offset]) && address[offset + 4..] == old(address[offset + 4..])
    {
      if values[k] > 255 {
        return false;
      }
      address[offset + k] := values[k];
      k := k + 1;
    }
    ghost var head := address[..offset + n - 1];
    var residue := PackLast(values[n - 1], n - 1, address, offset);
    assert address[..offset + n - 1] == head;
    assert address[..offset] == head[..offset];
    ghost var a: bytes := address[offset..offset + 4];
    assert forall j :: 0 <= j < n - 1 ==> a[j] == head[offset + j];
    PackDecides(values, a, residue);
    ok := residue == 0;
  }

  datatype Family = NEUTRAL | BROKEN | IPV4 | IPV6

  lemma HeldText(s: bytes, components: seq<Component>, parts: seq<bytes>, i: nat)
    requires AllNonempty(parts) && Hold(s, components, parts) && i < 4
    ensures components[i].Within(s)
    ensures components[i].len > 0 <==> i < |parts|
    ensures i < |parts| ==> components[i].Text(s) == Some(parts[i])
  {
    if i < |parts| {
      assert components[..|parts|][i] == components[i];
      assert Texts(s, components[..|parts|])[i] == parts[i];
    }
  }

  /** The number of one entry, or None for an entry not in use. */
  method ConvertPart(s: bytes, components: array<Component>, i: nat, ghost parts: seq<bytes>)
      returns (number: Option<Number>)
    requires components.Length == 4 && i < 4 && AllNonempty(parts) && Hold(s, components[..], parts)
    ensures number == if i < |parts| then Some(PartNumbers(parts)[i]) else None
  {
    HeldText(s, components[..], parts, i);
    if components[i].len <= 0 {
      return None;
    }
    var n := ComponentToNumber(components[i].Text(s).value);
    return Some(n);
  }

  /** The first numbers of a host, as far as they are converted. */
  predicate Converted(ns: seq<Number>, count: nat, broken: bool, values: seq<nat>) {
    && |values| == count <= |ns|
    && (forall k :: 0 <= k < count ==> !ns[k].NotANumber? && (ns[k].Number? ==> values[k] == ns[k].value))
    && (broken <==> exists k :: 0 <= k < count && ns[k].TooBig?)
  }

  lemma ConvertedOne(ns: seq<Number>, count: nat, broken: bool, values: seq<nat>, value: nat)
    requires Converted(ns, count, broken, values) && count < |ns| && !ns[count].NotANumber?
    requires ns[count].Number? ==> value == ns[count].value
    ensures Converted(ns, count + 1, broken || ns[count].TooBig?, values + [value])
  {
  }

  lemma ConvertedAll(ns: seq<Number>, broken: bool, values: seq<nat>)
    requires Converted(ns, |ns|, broken, values)
    ensures !SomeNotANumber(ns) && (broken <==> !AllNumbers(ns))
    ensures !broken ==> values == Values(ns)
  {
  }

  /** The numbers of the parts, up to the first that is no number. broken tells that one is too big. */
  method ConvertParts(s: bytes, components: array<Component>, ghost parts: seq<bytes>)
      returns (numeric: bool, broken: bool, values: seq<nat>)
    requires components.Length == 4 && AllNonempty(parts) && Hold(s, components[..], parts)
    ensures numeric <==> !SomeNotANumber(PartNumbers(parts))
    ensures numeric ==> (broken <==> !AllNumbers(PartNumbers(parts)))
    ensures numeric && !broken ==> values == Values(PartNumbers(parts))
  {
    ghost var ns := PartNumbers(parts);
    broken, values := false, [];
    var i := 0;
    while i < 4
      invariant i <= 4 && Converted(ns, if i < |parts| then i else |parts|, broken, values)
    {
      var number := ConvertPart(s, components, i, parts);
      if number.Some? {
        if number.value.NotANumber? {
          return false, broken, values;
        }
        var value := if number.value.Number? then number.value.value else 0;
        ConvertedOne(ns, i, broken, values, value);
        broken := broken || number.value.TooBig?;
        values := values + [value];
      }
      i := i + 1;
    }
    ConvertedAll(ns, broken, values);
    numeric := true;
  }

  /** The host is taken as a text. The four bytes go to the address from offset on, and nothing else is written. */
  method AddressToNumber(s: bytes, address: array<byte>, offset: nat) returns (family: Family, numComponents: nat)
    requires offset + 4 <= address.Length
    modifies address
    ensures match HostNumber(s)
      case Neutral => family == NEUTRAL
      case Broken => family == BROKEN
      case Address(a, n) => family == IPV4 && address[offset..offset + 4] == a && numComponents == n
    ensures address[..offset] == old(address[..offset]) && address[offset + 4..] == old(address[offset + 4..])
  {
    var components := new Component[4](_ => NO_COMPONENT);
    numComponents := 0;
    var found := FindIPv4Components(s, components);
    if !found {
      return NEUTRAL, 0;
    }
    ghost var parts := Parts(s).value;
    var numeric, broken, values := ConvertParts(s, components, parts);
    if !numeric {
      return NEUTRAL, 0;
    }
    if broken {
      return BROKEN, 0;
    }
    var fits := Pack(values, address, offset);
    if !fits {
      return BROKEN, 0;
    }
    return IPV4, |values|;
  }
}
