/** The IPv6 half of url_canon_ip.cc: its loops and buffers against IPv6Spec and IPv6Print. */
module IPv6 {
  import opened Bytes
  import opened CanonOutputs
  import opened Components
  import opened Numbers
  import opened IPv4Spec
  import opened IPv4
  import opened IPv6Spec
  import opened IPv6Print

  // ---- DoParseIPv6 ---------------------------------------------------------

  /** IPv6Parsed: ranges of the text between the brackets. */
  class ParsedRanges {
    const hexComponents: array<Component>
    var numHexComponents: nat
    var indexOfContraction: Option<nat>
    var ipv4Component: Component

    constructor ()
      ensures fresh(hexComponents) && hexComponents.Length == 8
      ensures numHexComponents == 0 && indexOfContraction == None && ipv4Component == NO_COMPONENT
    {
      hexComponents := new Component[8](_ => NO_COMPONENT);
      numHexComponents, indexOfContraction, ipv4Component := 0, None, NO_COMPONENT;
    }

    ghost predicate Valid(t: bytes)
      reads this, hexComponents
    {
      && hexComponents.Length == 8 && numHexComponents <= 8
      && AllWithin(t, hexComponents[..numHexComponents]) && ipv4Component.Within(t)
    }

    ghost function Groups(t: bytes): seq<bytes>
      requires Valid(t)
      reads this, hexComponents
    {
      Texts(t, hexComponents[..numHexComponents])
    }

    ghost function Contents(t: bytes): IPv6Parsed
      requires Valid(t)
      reads this, hexComponents
    {
      IPv6Parsed(Groups(t), indexOfContraction, ipv4Component.Text(t))
    }

    method AddGroup(t: bytes, c: Component)
      requires Valid(t) && numHexComponents < 8 && c.Within(t) && c.IsValid()
      modifies this`numHexComponents, hexComponents
      ensures Valid(t) && Groups(t) == old(Groups(t)) + [c.Text(t).value]
    {
      ghost var groups := Groups(t);
      Record(t, hexComponents, numHexComponents, c, groups);
      numHexComponents := numHexComponents + 1;
    }
  }

  /** The component under way ends here. It may be empty only beside a contraction at either end. */
  method EndComponent(t: bytes, i: nat, begin: nat, isContraction: bool, parsed: ParsedRanges) returns (ok: bool)
    requires parsed.Valid(t) && begin <= i <= |t|
    modifies parsed`numHexComponents, parsed.hexComponents
    ensures var groups := old(parsed.Groups(t));
      && parsed.Valid(t)
      && (ok <==>
            && i - begin <= 4
            && (i == begin ==> (isContraction && i == 0) || (i == |t| && parsed.indexOfContraction == Some(|groups|)))
            && (i > begin ==> |groups| < 8))
      && parsed.Groups(t) == if ok && i > begin then groups + [t[begin..i]] else groups
  {
    var componentLen := i - begin;
    if componentLen > 4 {
      return false;
    }
    if componentLen == 0 {
      return (isContraction && i == 0) || (i == |t| && parsed.indexOfContraction == Some(parsed.numHexComponents));
    }
    if parsed.numHexComponents >= 8 {
      return false;
    }
    parsed.AddGroup(t, Component(begin, componentLen));
    return true;
  }

  method ParseIPv6(t: bytes, parsed: ParsedRanges) returns (ok: bool)
    requires parsed.Valid(t) && parsed.numHexComponents == 0
    requires parsed.indexOfContraction == None && parsed.ipv4Component == NO_COMPONENT
    modifies parsed, parsed.hexComponents
    ensures ok <==> |t| > 0 && ScanIPv6(t, 0, 0, [], None).Some?
    ensures ok ==> parsed.Valid(t) && ScanIPv6(t, 0, 0, [], None) == Some(parsed.Contents(t))
  {
    if |t| == 0 {
      return false;
    }
    ghost var final := ScanIPv6(t, 0, 0, [], None);
    var begin := 0;
    var i := 0;
    while true
      invariant begin <= i <= |t| && parsed.Valid(t) && parsed.ipv4Component == NO_COMPONENT
      invariant ScanIPv6(t, i, begin, parsed.Groups(t), parsed.indexOfContraction) == final
      decreases |t| - i
    {
      var isColon := i < |t| && t[i] == COLON;
      var isContraction := isColon && i + 1 < |t| && t[i + 1] == COLON;
      if isColon || i == |t| {
        ok := EndComponent(t, i, begin, isContraction, parsed);
        if !ok {
          return false;
        }
      }
      if i == |t| {
        break;
      }
      if isContraction {
        if parsed.indexOfContraction != None {
          return false;
        }
        parsed.indexOfContraction := Some(parsed.numHexComponents);
        i := i + 1;
      }
      if isColon {
        begin := i + 1;
      } else {
        if !IsHexChar(t[i]) {
          if IsIPv4Char(t[i]) {
            parsed.ipv4Component := MakeRange(begin, |t|);
            assert t[begin..|t|] == t[begin..];
            break;
          } else {
            return false;
          }
        }
      }
      i := i + 1;
    }
    return true;
  }

  // ---- DoIPv6AddressToNumber -----------------------------------------------

  /** The host with its brackets. */
  function HostNumber6(h: bytes): (r: Option<bytes>)
    ensures r.Some? ==> |r.value| == 16
  {
    if |h| >= 2 && h[0] == LBRACKET && h[|h| - 1] == RBRACKET then TextNumber(h[1..|h| - 1]) else None
  }

  /** IPv6HexComponentToNumber, by way of a small buffer. */
  method HexComponentToNumber(t: bytes, component: Component) returns (number: nat)
    requires component.Within(t) && component.IsValid() && IsGroup(component.Text(t).value)
    ensures number == Value(component.Text(t).value, Hex) < 0x1_0000
  {
    var buf := new byte[5];
    var i := 0;
    while i < component.len
      invariant i <= component.len && buf[..i] == t[component.begin..component.begin + i]
    {
      buf[i] := t[component.begin + i];
      i := i + 1;
    }
    assert buf[..component.len] == component.Text(t).value;
    number := StrToUI64(buf[..component.len], Hex);
    GroupFits(component.Text(t).value);
  }

  /** Pieces of an address, with the zeros of the contraction before piece c, up to and without piece i. */
  function Assembled(pieces: seq<bytes>, c: Option<nat>, size: nat, i: nat): bytes
    requires i <= |pieces|
  {
    if i == 0 then [] else WithZeros(Assembled(pieces, c, size, i - 1), c, size, i - 1) + pieces[i - 1]
  }

  /** The contraction, if it stands before piece i. */
  function WithZeros(b: bytes, c: Option<nat>, size: nat, i: nat): bytes {
    if c == Some(i) then b + Zeros(size) else b
  }

  lemma {:induction false} AssembledBefore(pieces: seq<bytes>, c: Option<nat>, size: nat, i: nat)
    requires i <= |pieces| && (c.Some? ==> i <= c.value)
    ensures Assembled(pieces, c, size, i) == Concat(pieces[..i])
  {
    if i > 0 {
      AssembledBefore(pieces, c, size, i - 1);
      assert pieces[..i][..i - 1] == pieces[..i - 1];
    }
  }

  lemma ConcatOfSlice(pieces: seq<bytes>, c: nat, i: nat)
    requires c < i <= |pieces|
    ensures Concat(pieces[c..i]) == Concat(pieces[c..i - 1]) + pieces[i - 1]
  {
    var slice := pieces[c..i];
    assert slice[..|slice| - 1] == pieces[c..i - 1] && slice[|slice| - 1] == pieces[i - 1];
  }

  lemma {:induction false} AssembledBehind(pieces: seq<bytes>, c: nat, size: nat, i: nat)
    requires c <= i <= |pieces|
    ensures WithZeros(Assembled(pieces, Some(c), size, i), Some(c), size, i) ==
      Concat(pieces[..c]) + Zeros(size) + Concat(pieces[c..i])
    decreases i
  {
    var head := Concat(pieces[..c]) + Zeros(size);
    if i == c {
      AssembledBefore(pieces, Some(c), size, i);
      assert Concat(pieces[c..i]) == [];
      Regroup(head, [], []);
    } else {
      AssembledBehind(pieces, c, size, i - 1);
      ConcatOfSlice(pieces, c, i);
      Regroup(head, Concat(pieces[c..i - 1]), pieces[i - 1]);
    }
  }

  /** All the groups and the contraction. */
  function AllGroupsBytes(gs: seq<bytes>, c: Option<nat>, size: nat): bytes
    requires AllGroups(gs)
  {
    WithZeros(Assembled(Pieces(gs), c, size, |gs|), c, size, |gs|)
  }

  lemma PlainIsValue(gs: seq<bytes>, tail: Option<bytes>)
    requires AllGroups(gs) && IsLiteral(Literal(gs, false, [], tail))
    ensures LiteralValue(Literal(gs, false, [], tail)) == AllGroupsBytes(gs, None, 0) + TailBytes(tail)
  {
    assert Pieces(gs)[..|gs|] == Pieces(gs);
    AssembledBefore(Pieces(gs), None, 0, |gs|);
    Glue(GroupsBytes(gs), [], [], []);
    assert Zeros(0) == [];
  }

  lemma ContractedBytes(gs: seq<bytes>, c: nat, size: nat)
    requires AllGroups(gs) && c <= |gs|
    ensures AllGroups(gs[..c]) && AllGroups(gs[c..])
    ensures AllGroupsBytes(gs, Some(c), size) == GroupsBytes(gs[..c]) + Zeros(size) + GroupsBytes(gs[c..])
  {
    PiecesOfSlices(gs, c);
    AssembledBehind(Pieces(gs), c, size, |gs|);
    assert Pieces(gs)[c..|gs|] == Pieces(gs)[c..];
  }

  lemma ContractedIsValue(left: seq<bytes>, right: seq<bytes>, tail: Option<bytes>, size: nat)
    requires IsLiteral(Literal(left, true, right, tail))
    requires size == 16 - 2 * (|left| + |right|) - if tail.Some? then 4 else 0
    ensures LiteralValue(Literal(left, true, right, tail)) ==
      GroupsBytes(left) + Zeros(size) + GroupsBytes(right) + TailBytes(tail)
  {
  }

  lemma AssembledIsValue(p: IPv6Parsed)
    requires AllGroups(p.groups) && (p.contraction.Some? ==> p.contraction.value <= |p.groups|)
    requires IsLiteral(AsLiteral(p)) && ContractionSize(p).Some?
    ensures LiteralValue(AsLiteral(p)) ==
      AllGroupsBytes(p.groups, p.contraction, ContractionSize(p).value) + TailBytes(p.tail)
  {
    match p.contraction
    case None => PlainIsValue(p.groups, p.tail);
    case Some(c) =>
      ContractedBytes(p.groups, c, ContractionSize(p).value);
      ContractedIsValue(p.groups[..c], p.groups[c..], p.tail, ContractionSize(p).value);
  }

  /** The zeros of the contraction. */
  method WriteZeros(address: array<byte>, from: nat, count: nat)
    requires from + count <= address.Length
    modifies address
    ensures address[..from + count] == old(address[..from]) + Zeros(count)
  {
    var j := 0;
    while j < count
      invariant j <= count && address[..from + j] == old(address[..from]) + Zeros(j)
    {
      address[from + j] := 0;
      j := j + 1;
    }
  }

  method WriteGroup(address: array<byte>, from: nat, t: bytes, component: Component, ghost piece: bytes)
    requires from + 2 <= address.Length
    requires component.Within(t) && component.IsValid() && IsGroup(component.Text(t).value)
    requires piece == GroupBytes(component.Text(t).value)
    modifies address
    ensures address[..from + 2] == old(address[..from]) + piece
  {
    var number := HexComponentToNumber(t, component);
    address[from] := number / 0x100;
    address[from + 1] := number % 0x100;
  }

  /** The contraction, if it stands before group i. */
  method WriteContraction(address: array<byte>, from: nat, c: Option<nat>, size: nat, i: nat) returns (cur: nat)
    requires from + (if c == Some(i) then size else 0) <= address.Length
    modifies address
    ensures cur == from + if c == Some(i) then size else 0
    ensures address[..cur] == WithZeros(old(address[..from]), c, size, i)
  {
    cur := from;
    if Some(i) == c {
      WriteZeros(address, cur, size);
      cur := cur + size;
    }
  }

  /** Where piece i begins, the contraction before it not counted if it stands right there. */
  function Place(c: Option<nat>, size: nat, i: nat): nat { 2 * i + if c.Some? && c.value < i then size else 0 }

  /** One round of the loop: the contraction, if it stands here, and a group. */
  method WriteNext(t: bytes, component: Component, c: Option<nat>, size: nat, i: nat, address: array<byte>, from: nat,
                   ghost pieces: seq<bytes>) returns (cur: nat)
    requires i < |pieces| && HoldsPiece(t, component, pieces[i])
    requires from == Place(c, size, i) && Place(c, size, i + 1) <= address.Length
    requires address[..from] == Assembled(pieces, c, size, i)
    modifies address
    ensures cur == Place(c, size, i + 1)
    ensures address[..cur] == Assembled(pieces, c, size, i + 1)
  {
    cur := WriteContraction(address, from, c, size, i);
    WriteGroup(address, cur, t, component, pieces[i]);
    cur := cur + 2;
  }

  lemma GroupAt(t: bytes, components: seq<Component>, i: nat)
    requires AllWithin(t, components) && AllGroups(Texts(t, components)) && i < |components|
    ensures components[i].Within(t) && components[i].IsValid() && IsGroup(components[i].Text(t).value)
    ensures Pieces(Texts(t, components))[i] == GroupBytes(components[i].Text(t).value)
  {
    assert IsGroup(Texts(t, components)[i]);
  }

  /** The components hold the groups that make the pieces. */
  ghost predicate HoldPieces(t: bytes, components: seq<Component>, pieces: seq<bytes>) {
    |pieces| == |components| && forall i :: 0 <= i < |components| ==> HoldsPiece(t, components[i], pieces[i])
  }

  ghost predicate HoldsPiece(t: bytes, c: Component, piece: bytes) {
    c.Within(t) && c.IsValid() && IsGroup(c.Text(t).value) && piece == GroupBytes(c.Text(t).value)
  }

  lemma GroupsHoldPieces(t: bytes, components: seq<Component>)
    requires AllWithin(t, components) && AllGroups(Texts(t, components))
    ensures HoldPieces(t, components, Pieces(Texts(t, components)))
  {
    forall i | 0 <= i < |components| ensures HoldsPiece(t, components[i], Pieces(Texts(t, components))[i]) {
      GroupAt(t, components, i);
    }
  }

  lemma PlaceBefore(c: Option<nat>, size: nat, i: nat, n: nat)
    requires i < n
    ensures Place(c, size, i + 1) <= Place(c, size, n)
  {
  }

  /** The groups, and the contraction if a group is behind it, in order. */
  method WriteAllNext(t: bytes, components: seq<Component>, c: Option<nat>, size: nat, address: array<byte>,
                      ghost pieces: seq<bytes>) returns (cur: nat)
    requires HoldPieces(t, components, pieces) && Place(c, size, |components|) <= address.Length
    modifies address
    ensures cur == Place(c, size, |components|) && address[..cur] == Assembled(pieces, c, size, |components|)
  {
    cur := 0;
    assert address[..0] == [];
    for i := 0 to |components|
      invariant cur == Place(c, size, i) && cur <= address.Length
      invariant address[..cur] == Assembled(pieces, c, size, i)
    {
      PlaceBefore(c, size, i, |components|);
      assert HoldsPiece(t, components[i], pieces[i]);
      cur := WriteNext(t, components[i], c, size, i, address, cur, pieces);
    }
  }

  /** And the contraction behind the last group. */
  method WriteGroups(t: bytes, components: seq<Component>, c: Option<nat>, size: nat, address: array<byte>,
                     ghost pieces: seq<bytes>) returns (cur: nat)
    requires HoldPieces(t, components, pieces) && (c.Some? ==> c.value <= |components|)
    requires (c == None ==> size == 0) && 2 * |components| + size <= address.Length
    modifies address
    ensures cur == 2 * |components| + size
    ensures address[..cur] == WithZeros(Assembled(pieces, c, size, |pieces|), c, size, |pieces|)
  {
    cur := WriteAllNext(t, components, c, size, address, pieces);
    cur := WriteContraction(address, cur, c, size, |components|);
  }

  /** What the steps of the method make of a scanned text. */
  lemma ScannedNumber(p: IPv6Parsed)
    requires AllGroups(p.groups) && (p.contraction.Some? ==> p.contraction.value <= |p.groups|)
    requires p.tail.Some? ==> IsTail(p.tail.value)
    requires ContractionSize(p).Some?
    ensures ParsedNumber(p) ==
      Some(AllGroupsBytes(p.groups, p.contraction, ContractionSize(p).value) + TailBytes(p.tail))
  {
    ParsedIsLiteral(p);
    AssembledIsValue(p);
  }

  /** The last four bytes, if there is an IPv4 address at the end of the text. */
  method WriteTail(tail: bytes, address: array<byte>, cur: nat) returns (ok: bool)
    requires address.Length == 16 && cur == 12
    modifies address
    ensures ok <==> HostNumber(tail).Address?
    ensures ok ==> address[..] == old(address[..cur]) + HostNumber(tail).bytes4
  {
    var family, ignored := AddressToNumber(tail, address, cur);
    ok := family == IPV4;
    assert address[..] == address[..cur] + address[cur..cur + 4];
  }

  /** The text between the brackets. On success all sixteen bytes are written. */
  method TextToNumber(t: bytes, address: array<byte>) returns (ok: bool)
    requires address.Length == 16
    modifies address
    ensures ok <==> TextNumber(t).Some?
    ensures ok ==> address[..] == TextNumber(t).value
  {
    var parsed := new ParsedRanges();
    var parsedOk := ParseIPv6(t, parsed);
    if !parsedOk {
      return false;
    }
    ghost var p := parsed.Contents(t);
    ScanFromStart(t);
    var size := ComponentsSize(t, parsed);
    if size == None {
      return false;
    }
    if p.tail.Some? ==> HostNumber(p.tail.value).Address? { ScannedNumber(p); }
    var components := parsed.hexComponents[..parsed.numHexComponents];
    GroupsHoldPieces(t, components);
    var cur := WriteGroups(t, components, parsed.indexOfContraction, size.value, address, Pieces(p.groups));
    if parsed.ipv4Component.IsValid() {
      var tailOk := WriteTail(parsed.ipv4Component.Text(t).value, address, cur);
      if !tailOk {
        return false;
      }
    } else {
      assert address[..] == address[..cur] + [];
    }
    return true;
  }

  /** The host is taken as a text, brackets and all. */
  method AddressToNumber6(host: bytes, address: array<byte>) returns (ok: bool)
    requires address.Length == 16
    modifies address
    ensures ok <==> HostNumber6(host).Some?
    ensures ok ==> address[..] == HostNumber6(host).value
  {
    if |host| == 0 || host[0] != LBRACKET || host[|host| - 1] != RBRACKET {
      return false;
    }
    ok := TextToNumber(host[1..|host| - 1], address);
  }

  /** CheckIPv6ComponentsSize. */
  method ComponentsSize(t: bytes, parsed: ParsedRanges) returns (size: Option<nat>)
    requires parsed.Valid(t)
    ensures size == ContractionSize(parsed.Contents(t))
  {
    var without := parsed.numHexComponents * 2;
    if parsed.ipv4Component.IsValid() {
      without := without + 4;
    }
    var contraction := 0;
    if parsed.indexOfContraction != None {
      contraction := 16 - without;
      if contraction < 2 {
        contraction := 2;
      }
    }
    return if without + contraction != 16 then None else Some(contraction);
  }

  // ---- ChooseIPv6ContractionRange and AppendIPv6Address ---------------------

  /** A range of bytes for a run of groups; no range for no run. */
  function BytesRange(r: Range): Component { if r.len == 0 then NO_COMPONENT else Component(2 * r.begin, 2 * r.len) }

  method ChooseContractionRange(address: bytes) returns (contraction: Component)
    requires |address| == 16
    ensures contraction == BytesRange(ContractionRange(Words(address)))
  {
    ghost var ws := Words(address);
    var maxRange := NO_COMPONENT;
    var curRange := NO_COMPONENT;
    ghost var best, cur := Range(0, 0), 0;
    var i := 0;
    while i < 16
      invariant i <= 16 && i % 2 == 0 && cur <= i / 2
      invariant maxRange == BytesRange(best)
      invariant curRange == if cur == 0 then NO_COMPONENT else Component(i - 2 * cur, 2 * cur)
      invariant i == 16 ==> best == ContractionRange(ws)
      invariant i < 16 ==> Choose(ws, i / 2, cur, best) == ContractionRange(ws)
    {
      var isZero := address[i] == 0 && address[i + 1] == 0;
      assert isZero <==> ws[i / 2] == 0;
      if isZero {
        if !curRange.IsValid() {
          curRange := Component(i, 0);
        }
        curRange := curRange.(len := curRange.len + 2);
        cur := cur + 1;
      }
      if !isZero || i == 14 {
        if curRange.len > 2 && curRange.len > maxRange.len {
          maxRange := curRange;
        }
        best := Better(cur, if isZero then i / 2 + 1 else i / 2, best);
        curRange := NO_COMPONENT;
        cur := 0;
      }
      i := i + 2;
    }
    return maxRange;
  }

  /** What one round of the loop writes, at group k. */
  lemma PrintsRun(text: bytes, gs: seq<bytes>, r: Range, k: nat)
    requires k < |gs| && r.begin + r.len <= |gs| && k == r.begin && r.len > 0
    ensures k == 0 ==> text + PrintFrom(gs, r, k) == text + [COLON] + [COLON] + PrintFrom(gs, r, k + r.len)
    ensures k > 0 ==> text + PrintFrom(gs, r, k) == text + [COLON] + PrintFrom(gs, r, k + r.len)
  {
    var rest := PrintFrom(gs, r, k + r.len);
    assert text + ([COLON, COLON] + rest) == text + [COLON] + [COLON] + rest;
    assert text + ([COLON] + rest) == text + [COLON] + rest;
  }

  lemma PrintsGroup(text: bytes, gs: seq<bytes>, r: Range, k: nat)
    requires k < |gs| && r.begin + r.len <= |gs| && (k != r.begin || r.len == 0)
    ensures var colon := if k + 1 < |gs| then [COLON] else [];
      text + PrintFrom(gs, r, k) == text + gs[k] + colon + PrintFrom(gs, r, k + 1)
  {
    var rest := PrintFrom(gs, r, k + 1);
    assert text + (gs[k] + ([COLON] + rest)) == text + gs[k] + [COLON] + rest;
    assert text + (gs[k] + ([] + rest)) == text + gs[k] + [] + rest;
  }

  /** The number at i in hexadecimal, with a colon behind it unless it is the last. */
  method PushGroup(address: bytes, i: nat, output: CanonOutput, ghost group: bytes)
    requires |address| == 16 && i <= 14
    requires group == Hexadecimal(address[i] as nat * 0x100 + address[i + 1])
    modifies output
    ensures output.text == old(output.text) + group + if i + 2 < 16 then [COLON] else []
  {
    PushEach(Hexadecimal(address[i] as nat * 0x100 + address[i + 1]), output);
    if i + 2 < 16 {
      output.PushBack(COLON);
    }
  }

  /** The loop that prints the groups and jumps over the contraction. */
  method AppendGroups(address: bytes, contraction: Component, output: CanonOutput, ghost gs: seq<bytes>, ghost r: Range)
    requires |address| == 16 && |gs| == 8 && r.begin + r.len <= 8 && contraction == BytesRange(r)
    requires forall k :: 0 <= k < 8 ==> gs[k] == Hexadecimal(address[2 * k] as nat * 0x100 + address[2 * k + 1])
    modifies output
    ensures output.text == old(output.text) + PrintFrom(gs, r, 0)
  {
    ghost var final := output.text + PrintFrom(gs, r, 0);
    ghost var k := 0;
    var i := 0;
    while i <= 14
      invariant i == 2 * k && k <= 8
      invariant final == output.text + PrintFrom(gs, r, k)
      decreases 16 - i
    {
      if i == contraction.begin && contraction.len > 0 {
        PrintsRun(output.text, gs, r, k);
        if i == 0 {
          output.PushBack(COLON);
        }
        output.PushBack(COLON);
        i := contraction.End();
        k := k + r.len;
      } else {
        PrintsGroup(output.text, gs, r, k);
        PushGroup(address, i, output, gs[k]);
        i := i + 2;
        k := k + 1;
      }
    }
    assert final == output.text;
  }

  method AppendIPv6Address(address: bytes, output: CanonOutput)
    requires |address| == 16
    modifies output
    ensures output.text == old(output.text) + AddressText6(address)
  {
    ghost var ws := Words(address);
    ContractionIsLeftmostLongest(ws);
    var contraction := ChooseContractionRange(address);
    AppendGroups(address, contraction, output, HexGroups(ws), ContractionRange(ws));
  }
}
