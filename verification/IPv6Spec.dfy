/**
 IPv6 literals. A grammar in the manner of RFC 4291, section 2.2, with the loose IPv4 syntax of this library in the
 last 32 bits; the scan of the library; and a proof that the scan accepts the grammar and nothing else.
 */
module IPv6Spec {
  import opened Bytes
  import opened Numbers
  import opened IPv4Spec

  // ---- The grammar ---------------------------------------------------------

  /** The groups before and behind the "::", if there is one, and an IPv4 address at the end, if there is one. */
  datatype Literal = Literal(left: seq<bytes>, contracted: bool, right: seq<bytes>, tail: Option<bytes>)

  /** One to four hexadecimal digits. */
  predicate IsGroup(g: bytes) { 1 <= |g| <= 4 && AllDigits(g, Hex) }

  predicate AllGroups(gs: seq<bytes>) { forall k {:trigger IsGroup(gs[k])} :: 0 <= k < |gs| ==> IsGroup(gs[k]) }

  /** An IPv4 address that cannot be taken for a group: something in it is no hexadecimal digit. */
  predicate IsTail(t: bytes) { !AllDigits(t, Hex) && HostNumber(t).Address? }

  /** The number of bytes written out. */
  function WrittenBytes(lit: Literal): nat {
    2 * (|lit.left| + |lit.right|) + if lit.tail.Some? then 4 else 0
  }

  /** Altogether 128 bits, where "::" stands for one group at least. */
  predicate IsLiteral(lit: Literal) {
    && AllGroups(lit.left) && AllGroups(lit.right)
    && (lit.tail.Some? ==> IsTail(lit.tail.value))
    && (if lit.contracted then WrittenBytes(lit) <= 14 else |lit.right| == 0 && WrittenBytes(lit) == 16)
  }

  function Fields(groups: seq<bytes>, tail: Option<bytes>): seq<bytes> {
    groups + if tail.Some? then [tail.value] else []
  }

  function JoinColons(fields: seq<bytes>): bytes {
    if |fields| == 0 then []
    else if |fields| == 1 then fields[0]
    else fields[0] + [COLON] + JoinColons(fields[1..])
  }

  function LiteralText(lit: Literal): bytes {
    if lit.contracted then JoinColons(lit.left) + ([COLON, COLON] + JoinColons(Fields(lit.right, lit.tail)))
    else JoinColons(Fields(lit.left, lit.tail))
  }

  function GroupBytes(g: bytes): (b: bytes)
    requires IsGroup(g)
    ensures |b| == 2
  {
    GroupFits(g);
    [Value(g, Hex) / 0x100, Value(g, Hex) % 0x100]
  }

  lemma GroupFits(g: bytes)
    requires IsGroup(g)
    ensures Value(g, Hex) < 0x1_0000
  {
    ValueBound(g, Hex);
    SmallPowers();
    assert Pow(16, 1) == 16 && Pow(16, 2) == 256 && Pow(16, 3) == 4096;
  }

  function Pieces(gs: seq<bytes>): (pieces: seq<bytes>)
    requires AllGroups(gs)
    ensures |pieces| == |gs| && forall k :: 0 <= k < |gs| ==> |pieces[k]| == 2
  {
    seq(|gs|, k requires 0 <= k < |gs| => assert IsGroup(gs[k]); GroupBytes(gs[k]))
  }

  function Concat(pieces: seq<bytes>): bytes {
    if |pieces| == 0 then [] else Concat(pieces[..|pieces| - 1]) + pieces[|pieces| - 1]
  }

  lemma {:induction false} ConcatLength(pieces: seq<bytes>)
    requires forall k :: 0 <= k < |pieces| ==> |pieces[k]| == 2
    ensures |Concat(pieces)| == 2 * |pieces|
  {
    if |pieces| > 0 { ConcatLength(pieces[..|pieces| - 1]); }
  }

  lemma {:induction false} ConcatOfParts(p: seq<bytes>, q: seq<bytes>)
    ensures Concat(p + q) == Concat(p) + Concat(q)
    decreases |q|
  {
    if |q| == 0 {
      assert p + q == p && Concat(p) + [] == Concat(p);
    } else {
      var init, last := q[..|q| - 1], q[|q| - 1];
      ConcatOfParts(p, init);
      assert (p + q)[..|p + q| - 1] == p + init;
      assert Concat(p) + Concat(init) + last == Concat(p) + (Concat(init) + last);
    }
  }

  function GroupsBytes(gs: seq<bytes>): (b: bytes)
    requires AllGroups(gs)
    ensures |b| == 2 * |gs|
  {
    ConcatLength(Pieces(gs));
    Concat(Pieces(gs))
  }

  lemma PiecesOfSlices(gs: seq<bytes>, i: nat)
    requires AllGroups(gs) && i <= |gs|
    ensures AllGroups(gs[..i]) && Pieces(gs[..i]) == Pieces(gs)[..i]
    ensures AllGroups(gs[i..]) && Pieces(gs[i..]) == Pieces(gs)[i..]
  {
    forall k | 0 <= k < i ensures IsGroup(gs[..i][k]) { assert IsGroup(gs[k]); }
    forall k | 0 <= k < |gs| - i ensures IsGroup(gs[i..][k]) { assert IsGroup(gs[i + k]); }
  }

  function Zeros(n: nat): (b: bytes)
    ensures |b| == n && forall k :: 0 <= k < n ==> b[k] == 0
  {
    if n == 0 then [] else Zeros(n - 1) + [0]
  }

  function TailBytes(tail: Option<bytes>): (b: bytes)
    requires tail.Some? ==> HostNumber(tail.value).Address?
    ensures |b| == if tail.Some? then 4 else 0
  {
    if tail.Some? then HostNumber(tail.value).bytes4 else []
  }

  /** The sixteen bytes, in network order. */
  function LiteralValue(lit: Literal): (a: bytes)
    requires IsLiteral(lit)
    ensures |a| == 16
  {
    GroupsBytes(lit.left) + Zeros(16 - WrittenBytes(lit)) + GroupsBytes(lit.right) + TailBytes(lit.tail)
  }

  // ---- The scan ------------------------------------------------------------

  /** IPv6Parsed. */
  datatype IPv6Parsed = IPv6Parsed(groups: seq<bytes>, contraction: Option<nat>, tail: Option<bytes>)

  /** DoParseIPv6 at position i, with the component under way beginning at begin. */
  function ScanIPv6(t: bytes, i: nat, begin: nat, groups: seq<bytes>, contraction: Option<nat>): Option<IPv6Parsed>
    requires begin <= i <= |t|
    decreases |t| - i
  {
    var isColon := i < |t| && t[i] == COLON;
    var isContraction := isColon && i + 1 < |t| && t[i + 1] == COLON;
    if isColon || i == |t| then
      var len := i - begin;
      if len > 4 then None
      else if len == 0 && !(isContraction && i == 0) && !(i == |t| && contraction == Some(|groups|)) then None
      else if len > 0 && |groups| >= 8 then None
      else
        var more := if len > 0 then groups + [t[begin..i]] else groups;
        if i == |t| then Some(IPv6Parsed(more, contraction, None))
        else if !isContraction then ScanIPv6(t, i + 1, i + 1, more, contraction)
        else if contraction.Some? then None
        else ScanIPv6(t, i + 2, i + 2, more, Some(|more|))
    else if IsHexChar(t[i]) then ScanIPv6(t, i + 1, begin, groups, contraction)
    else if IsIPv4Char(t[i]) then Some(IPv6Parsed(groups, contraction, Some(t[begin..])))
    else None
  }

  /** CheckIPv6ComponentsSize: the number of bytes that the contraction stands for. */
  function ContractionSize(p: IPv6Parsed): Option<nat> {
    var without := 2 * |p.groups| + if p.tail.Some? then 4 else 0;
    var size := if p.contraction == None then 0 else if 16 - without < 2 then 2 else 16 - without;
    if without + size != 16 then None else Some(size)
  }

  /** What was scanned, as a literal of the grammar. */
  function AsLiteral(p: IPv6Parsed): Literal
    requires p.contraction.Some? ==> p.contraction.value <= |p.groups|
  {
    match p.contraction
    case None => Literal(p.groups, false, [], p.tail)
    case Some(c) => Literal(p.groups[..c], true, p.groups[c..], p.tail)
  }

  // ---- What is scanned is in the grammar ------------------------------------

  /** Every group with a colon behind it. */
  function WithColons(gs: seq<bytes>): bytes {
    if |gs| == 0 then [] else WithColons(gs[..|gs| - 1]) + gs[|gs| - 1] + [COLON]
  }

  /** The text before the component under way. */
  function Before(groups: seq<bytes>, contraction: Option<nat>): bytes
    requires contraction.Some? ==> contraction.value <= |groups|
  {
    match contraction
    case None => WithColons(groups)
    case Some(c) => JoinColons(groups[..c]) + [COLON, COLON] + WithColons(groups[c..])
  }

  lemma {:induction false} JoinIsWithColons(gs: seq<bytes>, last: bytes)
    ensures JoinColons(gs + [last]) == WithColons(gs) + last
    decreases |gs|
  {
    if |gs| > 0 {
      var init := gs[1..];
      JoinIsWithColons(init, last);
      assert (gs + [last])[1..] == init + [last];
      WithColonsFirst(gs);
      assert gs[0] + [COLON] + (WithColons(init) + last) == gs[0] + [COLON] + WithColons(init) + last;
    } else {
      assert gs + [last] == [last];
    }
  }

  lemma {:induction false} WithColonsFirst(gs: seq<bytes>)
    requires |gs| > 0
    ensures WithColons(gs) == gs[0] + [COLON] + WithColons(gs[1..])
    decreases |gs|
  {
    var init := gs[..|gs| - 1];
    if |gs| == 1 {
      assert WithColons(init) == [] && gs[1..] == [];
      assert [] + gs[0] + [COLON] == gs[0] + [COLON] + [];
    } else {
      WithColonsFirst(init);
      assert gs[1..][..|gs| - 2] == init[1..] && gs[1..][|gs| - 2] == gs[|gs| - 1];
      var m, z := WithColons(init[1..]), gs[|gs| - 1];
      assert gs[0] + [COLON] + m + z + [COLON] == gs[0] + [COLON] + (m + z + [COLON]);
    }
  }

  predicate Scanning(t: bytes, i: nat, begin: nat, groups: seq<bytes>, contraction: Option<nat>) {
    && begin <= i <= |t| && |groups| <= 8 && AllGroups(groups)
    && (contraction.Some? ==> contraction.value <= |groups|)
    && (begin == 0 ==> |groups| == 0 && contraction == None)
    && t[..begin] == Before(groups, contraction)
    && AllDigits(t[begin..i], Hex)
  }

  /** The text of a literal whose last component is at the end of what was scanned. */
  lemma LastField(groups: seq<bytes>, contraction: Option<nat>, last: bytes, tail: Option<bytes>)
    requires contraction.Some? ==> contraction.value <= |groups|
    requires tail.Some? ==> last == tail.value
    ensures var all := if tail.Some? then groups else groups + [last];
      LiteralText(AsLiteral(IPv6Parsed(all, contraction, tail))) == Before(groups, contraction) + last
  {
    match contraction
    case None =>
      JoinIsWithColons(groups, last);
      assert Fields(groups + [last], None) == groups + [last];
    case Some(c) =>
      var right := groups[c..];
      JoinIsWithColons(right, last);
      assert (groups + [last])[..c] == groups[..c] && (groups + [last])[c..] == right + [last];
      assert Fields(right + [last], None) == right + [last];
      var l, w := JoinColons(groups[..c]), WithColons(right);
      assert l + [COLON, COLON] + w + last == l + ([COLON, COLON] + (w + last));
  }

  lemma AfterColon(groups: seq<bytes>, contraction: Option<nat>, g: bytes)
    requires contraction.Some? ==> contraction.value <= |groups|
    ensures Before(groups + [g], contraction) == Before(groups, contraction) + g + [COLON]
  {
    var all := groups + [g];
    match contraction
    case None =>
      assert all[..|all| - 1] == groups;
    case Some(c) =>
      assert all[..c] == groups[..c] && all[c..] == groups[c..] + [g];
      assert (groups[c..] + [g])[..|groups| - c] == groups[c..];
      var h, w := JoinColons(groups[..c]) + [COLON, COLON], WithColons(groups[c..]);
      assert h + (w + g + [COLON]) == h + w + g + [COLON];
  }

  lemma AfterContraction(groups: seq<bytes>)
    ensures Before(groups, Some(|groups|)) == JoinColons(groups) + [COLON, COLON]
  {
    assert groups[..|groups|] == groups && groups[|groups|..] == [];
    var h := JoinColons(groups) + [COLON, COLON];
    assert h + [] == h;
  }

  lemma ContractionStep(t: bytes, i: nat, begin: nat, groups: seq<bytes>)
    requires Scanning(t, i, begin, groups, None) && i + 1 < |t| && t[i] == COLON && t[i + 1] == COLON
    requires (i > begin || i == 0) && i - begin <= 4 && (i > begin ==> |groups| < 8)
    ensures var more := if i > begin then groups + [t[begin..i]] else groups;
      Scanning(t, i + 2, i + 2, more, Some(|more|))
  {
    var more := if i > begin then groups + [t[begin..i]] else groups;
    AfterContraction(more);
    assert t[..i + 2] == t[..begin] + t[begin..i] + [COLON, COLON];
    if i > begin {
      JoinIsWithColons(groups, t[begin..i]);
    } else {
      assert t[begin..i] == [] && t[..begin] == [];
    }
    assert t[i + 2..i + 2] == [];
  }

  lemma ColonStep(t: bytes, i: nat, begin: nat, groups: seq<bytes>, contraction: Option<nat>)
    requires Scanning(t, i, begin, groups, contraction) && i < |t| && t[i] == COLON
    requires begin < i <= begin + 4 && |groups| < 8
    ensures Scanning(t, i + 1, i + 1, groups + [t[begin..i]], contraction)
  {
    AfterColon(groups, contraction, t[begin..i]);
    assert t[..i + 1] == t[..begin] + t[begin..i] + [COLON];
    assert t[i + 1..i + 1] == [];
  }

  predicate Represents(p: IPv6Parsed, t: bytes) {
    && |p.groups| <= 8 && AllGroups(p.groups)
    && (p.contraction.Some? ==> p.contraction.value <= |p.groups|)
    && (p.tail.Some? ==> !AllDigits(p.tail.value, Hex))
    && LiteralText(AsLiteral(p)) == t
  }

  lemma EndStep(t: bytes, begin: nat, groups: seq<bytes>, contraction: Option<nat>)
    requires Scanning(t, |t|, begin, groups, contraction) && |t| - begin <= 4
    requires if begin < |t| then |groups| < 8 else contraction == Some(|groups|)
    ensures Represents(IPv6Parsed(if begin < |t| then groups + [t[begin..]] else groups, contraction, None), t)
  {
    assert t[begin..|t|] == t[begin..] && t[..begin] + t[begin..] == t;
    if begin < |t| {
      LastField(groups, contraction, t[begin..], None);
    } else {
      AfterContraction(groups);
      assert groups[..|groups|] == groups && groups[|groups|..] == [];
      var none: seq<bytes> := [];
      assert Fields(none, None) == [];
      assert [COLON, COLON] + [] == [COLON, COLON];
    }
  }

  lemma TailStep(t: bytes, i: nat, begin: nat, groups: seq<bytes>, contraction: Option<nat>)
    requires Scanning(t, i, begin, groups, contraction) && i < |t| && !IsHexChar(t[i])
    ensures Represents(IPv6Parsed(groups, contraction, Some(t[begin..])), t)
  {
    assert t[begin..][i - begin] == t[i];
    LastField(groups, contraction, t[begin..], Some(t[begin..]));
    assert t[..begin] + t[begin..] == t;
  }

  lemma EndIsSound(t: bytes, begin: nat, groups: seq<bytes>, contraction: Option<nat>)
    requires Scanning(t, |t|, begin, groups, contraction)
    ensures var r := ScanIPv6(t, |t|, begin, groups, contraction); r.Some? ==> Represents(r.value, t)
  {
    assert t[begin..|t|] == t[begin..];
    if ScanIPv6(t, |t|, begin, groups, contraction).Some? { EndStep(t, begin, groups, contraction); }
  }

  lemma DigitStep(t: bytes, i: nat, begin: nat, groups: seq<bytes>, contraction: Option<nat>)
    requires Scanning(t, i, begin, groups, contraction) && i < |t| && IsHexChar(t[i])
    ensures Scanning(t, i + 1, begin, groups, contraction)
  {
    assert t[begin..i + 1] == t[begin..i] + [t[i]];
  }

  lemma {:induction false} ScanIsSound(t: bytes, i: nat, begin: nat, groups: seq<bytes>, contraction: Option<nat>)
    requires Scanning(t, i, begin, groups, contraction)
    ensures var r := ScanIPv6(t, i, begin, groups, contraction);
      r.Some? ==> Represents(r.value, t)
    decreases |t| - i
  {
    var r := ScanIPv6(t, i, begin, groups, contraction);
    if r.None? {
    } else if i == |t| {
      EndIsSound(t, begin, groups, contraction);
    } else if t[i] == COLON {
      if i + 1 < |t| && t[i + 1] == COLON {
        ContractionStep(t, i, begin, groups);
        var more := if i > begin then groups + [t[begin..i]] else groups;
        ScanIsSound(t, i + 2, i + 2, more, Some(|more|));
      } else {
        ColonStep(t, i, begin, groups, contraction);
        ScanIsSound(t, i + 1, i + 1, groups + [t[begin..i]], contraction);
      }
    } else if IsHexChar(t[i]) {
      DigitStep(t, i, begin, groups, contraction);
      ScanIsSound(t, i + 1, begin, groups, contraction);
    } else {
      TailStep(t, i, begin, groups, contraction);
    }
  }

  // ---- What is in the grammar is scanned ------------------------------------

  lemma {:induction false} ScanDigits(t: bytes, i: nat, begin: nat, stop: nat, groups: seq<bytes>, c: Option<nat>)
    requires begin <= i <= stop <= |t| && forall k :: i <= k < stop ==> IsHexChar(t[k])
    ensures ScanIPv6(t, i, begin, groups, c) == ScanIPv6(t, stop, begin, groups, c)
    decreases stop - i
  {
    if i < stop { ScanDigits(t, i + 1, begin, stop, groups, c); }
  }

  function FirstNonDigit(s: bytes, i: nat): (m: nat)
    requires i <= |s| && !AllDigits(s[i..], Hex)
    ensures i <= m < |s| && !IsHexChar(s[m]) && forall k :: i <= k < m ==> IsHexChar(s[k])
    decreases |s| - i
  {
    if !IsHexChar(s[i]) then i
    else
      assert forall k :: 1 <= k < |s[i..]| ==> s[i..][k] == s[i + 1..][k - 1];
      FirstNonDigit(s, i + 1)
  }

  lemma TailIsIPv4(t: bytes)
    requires IsTail(t)
    ensures |t| > 0 && AllIPv4Chars(t)
  {
  }

  lemma ScanTail(t: bytes, pos: nat, groups: seq<bytes>, c: Option<nat>)
    requires pos <= |t| && IsTail(t[pos..])
    ensures ScanIPv6(t, pos, pos, groups, c) == Some(IPv6Parsed(groups, c, Some(t[pos..])))
  {
    TailIsIPv4(t[pos..]);
    var m := FirstNonDigit(t, pos);
    assert t[m] == t[pos..][m - pos];
    ScanDigits(t, pos, pos, m, groups, c);
  }

  /** A group at pos, up to the character behind it. */
  lemma ScanGroup(t: bytes, pos: nat, g: bytes, rest: bytes, groups: seq<bytes>, c: Option<nat>)
    requires pos <= |t| && t[pos..] == g + rest && AllDigits(g, Hex)
    ensures var i := pos + |g|;
      i <= |t| && t[pos..i] == g && t[i..] == rest
      && ScanIPv6(t, pos, pos, groups, c) == ScanIPv6(t, i, pos, groups, c)
  {
    var i := pos + |g|;
    assert forall k :: pos <= k < i ==> t[k] == t[pos..][k - pos] == g[k - pos];
    ScanDigits(t, pos, pos, i, groups, c);
    assert t[i..] == t[pos..][|g|..];
  }

  lemma LastGroup(t: bytes, pos: nat, g: bytes, groups: seq<bytes>, c: Option<nat>)
    requires pos <= |t| && t[pos..] == g && IsGroup(g) && |groups| < 8
    ensures ScanIPv6(t, pos, pos, groups, c) == Some(IPv6Parsed(groups + [g], c, None))
  {
    assert g + [] == g;
    ScanGroup(t, pos, g, [], groups, c);
  }

  lemma GroupAndColon(t: bytes, pos: nat, g: bytes, rest: bytes, groups: seq<bytes>, c: Option<nat>)
    requires pos <= |t| && t[pos..] == g + ([COLON] + rest) && IsGroup(g) && |groups| < 8
    requires |rest| > 0 && rest[0] != COLON
    ensures var next := pos + |g| + 1;
      next <= |t| && t[next..] == rest
      && ScanIPv6(t, pos, pos, groups, c) == ScanIPv6(t, next, next, groups + [g], c)
  {
    ScanGroup(t, pos, g, [COLON] + rest, groups, c);
    var i := pos + |g|;
    assert t[i] == t[i..][0] == COLON && t[i + 1] == t[i..][1] == rest[0];
    assert t[i + 1..] == t[i..][1..];
  }

  lemma GroupAndContraction(t: bytes, pos: nat, g: bytes, rest: bytes, groups: seq<bytes>)
    requires pos <= |t| && t[pos..] == g + ([COLON, COLON] + rest) && IsGroup(g) && |groups| < 8
    ensures var next := pos + |g| + 2;
      next <= |t| && t[next..] == rest
      && ScanIPv6(t, pos, pos, groups, None) == ScanIPv6(t, next, next, groups + [g], Some(|groups| + 1))
  {
    ScanGroup(t, pos, g, [COLON, COLON] + rest, groups, None);
    var i := pos + |g|;
    assert t[i] == t[i..][0] == COLON && t[i + 1] == t[i..][1] == COLON;
    assert t[i + 2..] == t[i..][2..];
  }

  /** The text of some fields begins with a character that is no colon. */
  lemma FieldsBegin(groups: seq<bytes>, tail: Option<bytes>)
    requires AllGroups(groups) && (tail.Some? ==> IsTail(tail.value)) && |Fields(groups, tail)| > 0
    ensures var text := JoinColons(Fields(groups, tail));
      |text| > 0 && text[0] != COLON
  {
    var first := Fields(groups, tail)[0];
    if |groups| > 0 {
      assert first == groups[0] && IsGroup(groups[0]);
    } else {
      TailIsIPv4(tail.value);
    }
    assert JoinColons(Fields(groups, tail))[0] == first[0];
  }

  /** The first of several fields is a group, and the rest begin behind its colon. */
  lemma FirstField(fields: seq<bytes>, tail: Option<bytes>)
    requires |fields| > 0 && |Fields(fields, tail)| > 1
    ensures var text := JoinColons(Fields(fields[1..], tail));
      JoinColons(Fields(fields, tail)) == fields[0] + ([COLON] + text)
    ensures |Fields(fields[1..], tail)| > 0
  {
    assert Fields(fields, tail)[1..] == Fields(fields[1..], tail);
    var text := JoinColons(Fields(fields[1..], tail));
    assert fields[0] + [COLON] + text == fields[0] + ([COLON] + text);
  }

  lemma OneAndRest(groups: seq<bytes>, fields: seq<bytes>)
    requires |fields| > 0
    ensures groups + [fields[0]] + fields[1..] == groups + fields
  {
  }

  lemma ScanLastField(t: bytes, pos: nat, groups: seq<bytes>, c: Option<nat>, fields: seq<bytes>, tail: Option<bytes>)
    requires pos <= |t| && t[pos..] == JoinColons(Fields(fields, tail)) && |Fields(fields, tail)| == 1
    requires AllGroups(fields) && (tail.Some? ==> IsTail(tail.value)) && |groups| + |fields| <= 8
    ensures ScanIPv6(t, pos, pos, groups, c) == Some(IPv6Parsed(groups + fields, c, tail))
  {
    if |fields| == 0 {
      assert Fields(fields, tail) == [tail.value];
      ScanTail(t, pos, groups, c);
      assert groups + fields == groups;
    } else {
      assert Fields(fields, tail) == [fields[0]] == fields;
      LastGroup(t, pos, fields[0], groups, c);
    }
  }

  lemma {:induction false} ScanFields(t: bytes, pos: nat, groups: seq<bytes>, c: Option<nat>, fields: seq<bytes>,
                                      tail: Option<bytes>)
    requires pos <= |t| && t[pos..] == JoinColons(Fields(fields, tail)) && |Fields(fields, tail)| > 0
    requires AllGroups(fields) && (tail.Some? ==> IsTail(tail.value)) && |groups| + |fields| <= 8
    ensures ScanIPv6(t, pos, pos, groups, c) == Some(IPv6Parsed(groups + fields, c, tail))
    decreases |fields|
  {
    if |Fields(fields, tail)| == 1 {
      ScanLastField(t, pos, groups, c, fields, tail);
    } else {
      FirstField(fields, tail);
      FieldsBegin(fields[1..], tail);
      GroupAndColon(t, pos, fields[0], JoinColons(Fields(fields[1..], tail)), groups, c);
      ScanFields(t, pos + |fields[0]| + 1, groups + [fields[0]], c, fields[1..], tail);
      OneAndRest(groups, fields);
    }
  }

  lemma FirstOfLeft(left: seq<bytes>, rest: bytes)
    requires |left| > 1 && AllGroups(left)
    ensures var text := JoinColons(left[1..]) + ([COLON, COLON] + rest);
      && JoinColons(left) + ([COLON, COLON] + rest) == left[0] + ([COLON] + text)
      && |text| > 0 && text[0] != COLON
  {
    var more, end := JoinColons(left[1..]), [COLON, COLON] + rest;
    FieldsBegin(left[1..], None);
    assert Fields(left[1..], None) == left[1..];
    assert left[0] + [COLON] + more + end == left[0] + ([COLON] + (more + end));
  }

  lemma {:induction false} ScanLeft(t: bytes, pos: nat, groups: seq<bytes>, left: seq<bytes>, rest: bytes)
    requires pos <= |t| && t[pos..] == JoinColons(left) + ([COLON, COLON] + rest) && |left| > 0
    requires AllGroups(left) && |groups| + |left| <= 8
    ensures var next := |t| - |rest|;
      next >= 0 && t[next..] == rest
      && ScanIPv6(t, pos, pos, groups, None) == ScanIPv6(t, next, next, groups + left, Some(|groups| + |left|))
    decreases |left|
  {
    if |left| == 1 {
      assert left == [left[0]];
      GroupAndContraction(t, pos, left[0], rest, groups);
    } else {
      FirstOfLeft(left, rest);
      GroupAndColon(t, pos, left[0], JoinColons(left[1..]) + ([COLON, COLON] + rest), groups, None);
      ScanLeft(t, pos + |left[0]| + 1, groups + [left[0]], left[1..], rest);
      assert groups + [left[0]] + left[1..] == groups + left;
    }
  }

  /** How the scan represents a literal. */
  function AsParsed(lit: Literal): IPv6Parsed {
    IPv6Parsed(lit.left + lit.right, if lit.contracted then Some(|lit.left|) else None, lit.tail)
  }

  lemma ScanContracted(lit: Literal)
    requires IsLiteral(lit) && lit.contracted
    ensures ScanIPv6(LiteralText(lit), 0, 0, [], None) == Some(AsParsed(lit))
  {
    var t := LiteralText(lit);
    ScanBeforeContraction(lit);
    ScanBehindContraction(lit, t, |t| - |JoinColons(Fields(lit.right, lit.tail))|);
  }

  lemma ScanBeforeContraction(lit: Literal)
    requires IsLiteral(lit) && lit.contracted
    ensures var t, rest := LiteralText(lit), JoinColons(Fields(lit.right, lit.tail)); var next := |t| - |rest|;
      && next >= 0 && t[next..] == rest
      && ScanIPv6(t, 0, 0, [], None) == ScanIPv6(t, next, next, lit.left, Some(|lit.left|))
  {
    var rest := JoinColons(Fields(lit.right, lit.tail));
    if |lit.left| > 0 {
      ScanLeftFirst(LiteralText(lit), lit.left, rest);
    } else {
      assert JoinColons(lit.left) + ([COLON, COLON] + rest) == [COLON, COLON] + rest && lit.left == [];
      ContractionFirst(LiteralText(lit), rest);
    }
  }

  lemma ScanLeftFirst(t: bytes, left: seq<bytes>, rest: bytes)
    requires t == JoinColons(left) + ([COLON, COLON] + rest) && 0 < |left| <= 8 && AllGroups(left)
    ensures var next := |t| - |rest|;
      && next >= 0 && t[next..] == rest
      && ScanIPv6(t, 0, 0, [], None) == ScanIPv6(t, next, next, left, Some(|left|))
  {
    assert t[0..] == t && [] + left == left;
    ScanLeft(t, 0, [], left, rest);
  }

  lemma ContractionFirst(t: bytes, rest: bytes)
    requires t == [COLON, COLON] + rest
    ensures t[2..] == rest && ScanIPv6(t, 0, 0, [], None) == ScanIPv6(t, 2, 2, [], Some(0))
  {
  }

  lemma ScanBehindContraction(lit: Literal, t: bytes, next: nat)
    requires IsLiteral(lit) && lit.contracted
    requires next <= |t| && t[next..] == JoinColons(Fields(lit.right, lit.tail))
    ensures ScanIPv6(t, next, next, lit.left, Some(|lit.left|)) == Some(AsParsed(lit))
  {
    if |Fields(lit.right, lit.tail)| > 0 {
      ScanFields(t, next, lit.left, Some(|lit.left|), lit.right, lit.tail);
    } else {
      assert t[next..] == [] && lit.left + lit.right == lit.left;
    }
  }

  lemma ScanIsComplete(lit: Literal)
    requires IsLiteral(lit)
    ensures ScanIPv6(LiteralText(lit), 0, 0, [], None) == Some(AsParsed(lit))
  {
    if lit.contracted {
      ScanContracted(lit);
    } else {
      var t := LiteralText(lit);
      assert t[0..] == t && [] + lit.left == lit.left && lit.left + lit.right == lit.left;
      ScanFields(t, 0, [], None, lit.left, lit.tail);
    }
  }

  // ---- The address ---------------------------------------------------------

  /** The value of what was scanned, if it has the right size and the IPv4 address at its end is one. */
  function ParsedNumber(p: IPv6Parsed): (r: Option<bytes>)
    requires AllGroups(p.groups) && (p.contraction.Some? ==> p.contraction.value <= |p.groups|)
    requires p.tail.Some? ==> !AllDigits(p.tail.value, Hex)
    ensures r.Some? ==> |r.value| == 16
  {
    if ContractionSize(p) == None || (p.tail.Some? && !HostNumber(p.tail.value).Address?) then None
    else
      ParsedIsLiteral(p);
      Some(LiteralValue(AsLiteral(p)))
  }

  lemma ParsedIsLiteral(p: IPv6Parsed)
    requires AllGroups(p.groups) && (p.contraction.Some? ==> p.contraction.value <= |p.groups|)
    requires p.tail.Some? ==> IsTail(p.tail.value)
    requires ContractionSize(p).Some?
    ensures IsLiteral(AsLiteral(p))
  {
    if p.contraction.Some? { PiecesOfSlices(p.groups, p.contraction.value); }
  }

  /** DoIPv6AddressToNumber without the brackets: the sixteen bytes, or None. */
  function TextNumber(t: bytes): (r: Option<bytes>)
    ensures r.Some? ==> |r.value| == 16
  {
    if |t| == 0 then None
    else
      match ScanIPv6(t, 0, 0, [], None)
      case None => None
      case Some(p) =>
        ScanFromStart(t);
        ParsedNumber(p)
  }

  lemma ScanFromStart(t: bytes)
    ensures var r := ScanIPv6(t, 0, 0, [], None);
      r.Some? ==> Represents(r.value, t)
  {
    assert Scanning(t, 0, 0, [], None);
    ScanIsSound(t, 0, 0, [], None);
  }

  lemma AsLiteralInverts(lit: Literal)
    requires IsLiteral(lit)
    ensures AsLiteral(AsParsed(lit)) == lit && ContractionSize(AsParsed(lit)).Some?
  {
    var all := lit.left + lit.right;
    assert all[..|lit.left|] == lit.left && all[|lit.left|..] == lit.right;
    if !lit.contracted { assert lit.right == [] && all == lit.left; }
  }

  /** A text is accepted as an address if and only if it is the text of a literal with that value. */
  lemma AcceptedIffLiteral(t: bytes, a: bytes)
    ensures TextNumber(t) == Some(a) <==> exists lit :: IsLiteral(lit) && LiteralText(lit) == t && LiteralValue(lit) == a
  {
    if TextNumber(t) == Some(a) {
      var p := ScanIPv6(t, 0, 0, [], None).value;
      ScanFromStart(t);
      ParsedIsLiteral(p);
      var lit := AsLiteral(p);
      assert IsLiteral(lit) && LiteralText(lit) == t && LiteralValue(lit) == a;
    }
    if lit :| IsLiteral(lit) && LiteralText(lit) == t && LiteralValue(lit) == a {
      LiteralIsAccepted(lit);
    }
  }

  lemma LiteralIsAccepted(lit: Literal)
    requires IsLiteral(lit)
    ensures TextNumber(LiteralText(lit)) == Some(LiteralValue(lit))
  {
    ScanIsComplete(lit);
    AsLiteralInverts(lit);
    if lit.contracted {
      assert |LiteralText(lit)| >= 2;
    } else {
      FieldsBegin(lit.left, lit.tail);
    }
  }
}
