/** Printing IPv6 addresses: the run of zeros that "::" replaces, the text, and reading it back. */
module IPv6Print {
  import opened Bytes
  import opened Numbers
  import opened IPv6Spec

  // ---- The contraction range -----------------------------------------------

  /** The eight 16-bit groups of an address. */
  function Words(a: bytes): (ws: seq<nat>)
    requires |a| == 16
    ensures |ws| == 8 && forall k :: 0 <= k < 8 ==> ws[k] < 0x1_0000
  {
    seq(8, k requires 0 <= k < 8 => a[2 * k] as nat * 0x100 + a[2 * k + 1])
  }

  /** A run of zero groups. */
  datatype Range = Range(begin: nat, len: nat)

  predicate IsZeroRun(ws: seq<nat>, r: Range) {
    r.begin + r.len <= |ws| && forall k :: r.begin <= k < r.begin + r.len ==> ws[k] == 0
  }

  /** A run of zeros that ends before end is chosen if it has two groups at least and is longer than best. */
  function Better(run: nat, end: nat, best: Range): Range
    requires run <= end
  {
    if run > 1 && run > best.len then Range(end - run, run) else best
  }

  /** ChooseIPv6ContractionRange at group i: cur is the length of the run of zeros that ends before i. */
  function Choose(ws: seq<nat>, i: nat, cur: nat, best: Range): Range
    requires cur <= i <= |ws|
    decreases |ws| - i
  {
    if i == |ws| then best
    else if ws[i] != 0 then Choose(ws, i + 1, 0, Better(cur, i, best))
    else if i + 1 == |ws| then Better(cur + 1, i + 1, best)
    else Choose(ws, i + 1, cur + 1, best)
  }

  /** The chosen run is as long as any, and longer than every run that begins before it. Length zero stands for no
      run of two groups at all. */
  ghost predicate IsLeftmostLongest(ws: seq<nat>, best: Range) {
    && IsZeroRun(ws, best) && best.len != 1
    && (best.len == 0 ==> best.begin == 0)
    && forall r: Range :: IsZeroRun(ws, r) && r.len > 1 ==>
         r.len <= best.len && (r.begin < best.begin ==> r.len < best.len)
  }

  /** What is known at group i: best is right for the runs that end before the current one begins. */
  ghost predicate Choosing(ws: seq<nat>, i: nat, cur: nat, best: Range) {
    && cur <= i <= |ws| && IsZeroRun(ws, Range(i - cur, cur)) && (cur < i ==> ws[i - cur - 1] != 0)
    && IsZeroRun(ws, best) && best.len != 1 && best.begin + best.len <= i - cur
    && (best.len == 0 ==> best.begin == 0)
    && forall r: Range :: IsZeroRun(ws, r) && r.len > 1 && r.begin + r.len <= i - cur ==>
         r.len <= best.len && (r.begin < best.begin ==> r.len < best.len)
  }

  lemma RunEnds(ws: seq<nat>, i: nat, run: nat, best: Range)
    requires Choosing(ws, i, run, best)
    ensures i < |ws| && ws[i] != 0 ==> Choosing(ws, i + 1, 0, Better(run, i, best))
    ensures i == |ws| ==> IsLeftmostLongest(ws, Better(run, i, best))
  {
  }

  lemma RunGrows(ws: seq<nat>, i: nat, run: nat, best: Range)
    requires Choosing(ws, i, run, best) && i < |ws| && ws[i] == 0
    ensures Choosing(ws, i + 1, run + 1, best)
  {
  }

  lemma {:induction false} ChooseIsRight(ws: seq<nat>, i: nat, cur: nat, best: Range)
    requires Choosing(ws, i, cur, best) && (i == |ws| ==> cur == 0)
    ensures IsLeftmostLongest(ws, Choose(ws, i, cur, best))
    decreases |ws| - i
  {
    if i == |ws| {
      RunEnds(ws, i, cur, best);
    } else if ws[i] != 0 {
      RunEnds(ws, i, cur, best);
      ChooseIsRight(ws, i + 1, 0, Better(cur, i, best));
    } else {
      RunGrows(ws, i, cur, best);
      if i + 1 == |ws| {
        RunEnds(ws, i + 1, cur + 1, best);
      } else {
        ChooseIsRight(ws, i + 1, cur + 1, best);
      }
    }
  }

  function ContractionRange(ws: seq<nat>): Range { Choose(ws, 0, 0, Range(0, 0)) }

  /** RFC 5952, sections 4.2.1 to 4.2.3. */
  lemma ContractionIsLeftmostLongest(ws: seq<nat>)
    requires |ws| > 0
    ensures IsLeftmostLongest(ws, ContractionRange(ws))
  {
    ChooseIsRight(ws, 0, 0, Range(0, 0));
  }

  /** There is only one such run. */
  lemma LeftmostLongestIsUnique(ws: seq<nat>, r1: Range, r2: Range)
    requires IsLeftmostLongest(ws, r1) && IsLeftmostLongest(ws, r2)
    ensures r1 == r2
  {
    if r1.len > 1 { assert IsZeroRun(ws, r1); }
    if r2.len > 1 { assert IsZeroRun(ws, r2); }
  }

  // ---- The text ------------------------------------------------------------

  function HexGroups(ws: seq<nat>): (gs: seq<bytes>)
    ensures |gs| == |ws| && forall k :: 0 <= k < |ws| ==> gs[k] == Hexadecimal(ws[k])
  {
    seq(|ws|, k requires 0 <= k < |ws| => Hexadecimal(ws[k]))
  }

  /** AppendIPv6Address from group i on: a colon behind each group but the last, and one more, or two at the
      beginning, for the contraction. */
  function PrintFrom(gs: seq<bytes>, r: Range, i: nat): bytes
    requires i <= |gs| && r.begin + r.len <= |gs|
    decreases |gs| - i
  {
    if i == |gs| then []
    else if i == r.begin && r.len > 0 then
      (if i == 0 then [COLON, COLON] else [COLON]) + PrintFrom(gs, r, i + r.len)
    else gs[i] + ((if i + 1 < |gs| then [COLON] else []) + PrintFrom(gs, r, i + 1))
  }

  function AddressText6(a: bytes): bytes
    requires |a| == 16
  {
    ContractionIsLeftmostLongest(Words(a));
    PrintFrom(HexGroups(Words(a)), ContractionRange(Words(a)), 0)
  }

  // ---- The text is that of a literal ----------------------------------------

  function PrintedLiteral(gs: seq<bytes>, r: Range): Literal
    requires r.begin + r.len <= |gs|
  {
    if r.len == 0 then Literal(gs, false, [], None)
    else Literal(gs[..r.begin], true, gs[r.begin + r.len..], None)
  }

  lemma Glue(a: bytes, b: bytes, c: bytes, d: bytes)
    ensures a + (b + (c + d)) == a + b + c + d
    ensures a + [] == a && [] + a == a
  {
    assert a + (b + (c + d)) == a + b + c + d;
  }

  /** Behind the contraction, or without one. */
  lemma {:induction false} PrintsJoined(gs: seq<bytes>, r: Range, i: nat)
    requires i <= |gs| && r.begin + r.len <= |gs| && (r.len == 0 || i >= r.begin + r.len)
    ensures PrintFrom(gs, r, i) == JoinColons(gs[i..])
    decreases |gs| - i
  {
    if i < |gs| {
      PrintsJoined(gs, r, i + 1);
      assert gs[i..][1..] == gs[i + 1..];
      var rest := PrintFrom(gs, r, i + 1);
      if i + 1 == |gs| {
        Glue(gs[i], [], [], []);
      } else {
        assert gs[i] + ([COLON] + rest) == gs[i] + [COLON] + rest;
      }
    }
  }

  /** Before the contraction. */
  lemma {:induction false} PrintsWithColons(gs: seq<bytes>, r: Range, i: nat)
    requires i <= r.begin && r.begin + r.len <= |gs| && r.len > 0
    ensures PrintFrom(gs, r, i) == WithColons(gs[i..r.begin]) + PrintFrom(gs, r, r.begin)
    decreases r.begin - i
  {
    var left, rest := gs[i..r.begin], PrintFrom(gs, r, r.begin);
    if i < r.begin {
      PrintsWithColons(gs, r, i + 1);
      assert left[1..] == gs[i + 1..r.begin];
      WithColonsFirst(left);
      assert PrintFrom(gs, r, i) == gs[i] + ([COLON] + (WithColons(left[1..]) + rest));
      Glue(gs[i], [COLON], WithColons(left[1..]), rest);
    } else {
      assert left == [];
      Glue(rest, [], [], []);
    }
  }

  function Separator(r: Range): bytes { if r.begin == 0 then [COLON, COLON] else [COLON] }

  lemma {:induction false} PrintsFirst(gs: seq<bytes>, r: Range)
    requires r.begin + r.len <= |gs| && r.len > 0
    ensures PrintFrom(gs, r, r.begin) == Separator(r) + PrintFrom(gs, r, r.begin + r.len)
  {
  }

  lemma {:induction false} PrintsContraction(gs: seq<bytes>, r: Range, rest: bytes)
    requires r.begin + r.len <= |gs| && r.len > 0 && rest == PrintFrom(gs, r, r.begin + r.len)
    ensures PrintFrom(gs, r, r.begin) == Separator(r) + rest && rest == JoinColons(gs[r.begin + r.len..])
  {
    PrintsFirst(gs, r);
    PrintsJoined(gs, r, r.begin + r.len);
  }

  lemma {:induction false} PrintIsContractedText(gs: seq<bytes>, r: Range, left: seq<bytes>, right: seq<bytes>)
    requires r.begin + r.len <= |gs| && r.len > 0 && left == gs[0..r.begin] && right == gs[r.begin + r.len..]
    ensures PrintFrom(gs, r, 0) == LiteralText(Literal(left, true, right, None))
  {
    var x := PrintFrom(gs, r, r.begin);
    assert x == Separator(r) + JoinColons(right) by { PrintsContraction(gs, r, PrintFrom(gs, r, r.begin + r.len)); }
    assert PrintFrom(gs, r, 0) == WithColons(left) + x by { PrintsWithColons(gs, r, 0); }
    ContractedText(left, right);
  }

  lemma PrintIsPlainText(gs: seq<bytes>, r: Range)
    requires r.begin + r.len <= |gs| && r.len == 0
    ensures PrintFrom(gs, r, 0) == LiteralText(Literal(gs, false, [], None))
  {
    assert gs[0..] == gs && gs + [] == gs;
    PrintsJoined(gs, r, 0);
  }

  lemma PrintIsLiteralText(gs: seq<bytes>, r: Range)
    requires r.begin + r.len <= |gs|
    ensures PrintFrom(gs, r, 0) == LiteralText(PrintedLiteral(gs, r))
  {
    var lit := PrintedLiteral(gs, r);
    if r.len == 0 {
      PrintIsPlainText(gs, r);
    } else {
      assert lit.left == gs[0..r.begin];
      PrintIsContractedText(gs, r, lit.left, lit.right);
    }
  }

  lemma {:induction false} ContractedText(left: seq<bytes>, right: seq<bytes>)
    ensures LiteralText(Literal(left, true, right, None)) ==
      WithColons(left) + ((if |left| == 0 then [COLON, COLON] else [COLON]) + JoinColons(right))
  {
    assert Fields(right, None) == right;
    if |left| > 0 { JoinThenColons(left, JoinColons(right)); }
  }

  lemma {:induction false} JoinThenColons(left: seq<bytes>, text: bytes)
    requires |left| > 0
    ensures JoinColons(left) + ([COLON, COLON] + text) == WithColons(left) + ([COLON] + text)
  {
    var init, last := left[..|left| - 1], left[|left| - 1];
    assert left == init + [last];
    JoinIsWithColons(init, last);
    TwoColons(JoinColons(left), text);
  }

  lemma TwoColons(head: bytes, text: bytes)
    ensures head + ([COLON, COLON] + text) == head + [COLON] + ([COLON] + text)
  {
  }

  // ---- The literal stands for the address -----------------------------------

  lemma PrintedGroup(w: nat)
    requires w < 0x1_0000
    ensures IsGroup(Hexadecimal(w)) && GroupBytes(Hexadecimal(w)) == [w / 0x100, w % 0x100]
  {
    HexadecimalValue(w);
    SmallPowers();
    HexadecimalLength(w, 4);
  }

  predicate AreWords(ws: seq<nat>) { |ws| == 8 && forall k :: 0 <= k < 8 ==> ws[k] < 0x1_0000 }

  lemma PrintedGroups(ws: seq<nat>)
    requires AreWords(ws)
    ensures AllGroups(HexGroups(ws))
    ensures forall k :: 0 <= k < 8 ==> Pieces(HexGroups(ws))[k] == [ws[k] / 0x100, ws[k] % 0x100]
  {
    var gs := HexGroups(ws);
    forall k | 0 <= k < 8 ensures IsGroup(gs[k]) && GroupBytes(gs[k]) == [ws[k] / 0x100, ws[k] % 0x100] {
      PrintedGroup(ws[k]);
    }
  }

  lemma {:induction false} ConcatOfZeros(pieces: seq<bytes>)
    requires forall k :: 0 <= k < |pieces| ==> pieces[k] == [0, 0]
    ensures Concat(pieces) == Zeros(2 * |pieces|)
  {
    if |pieces| > 0 {
      ConcatOfZeros(pieces[..|pieces| - 1]);
      assert Zeros(2 * |pieces|) == Zeros(2 * |pieces| - 2) + [0, 0];
    }
  }

  lemma {:induction false} ConcatOfPairs(a: bytes, pieces: seq<bytes>)
    requires |a| == 2 * |pieces| && forall k :: 0 <= k < |pieces| ==> pieces[k] == [a[2 * k], a[2 * k + 1]]
    ensures Concat(pieces) == a
  {
    if |pieces| > 0 {
      var n := |pieces| - 1;
      ConcatOfPairs(a[..2 * n], pieces[..n]);
      assert a == a[..2 * n] + [a[2 * n], a[2 * n + 1]];
    }
  }

  lemma ConcatOfThree(left: seq<bytes>, mid: seq<bytes>, right: seq<bytes>)
    ensures Concat(left + mid + right) == Concat(left) + Concat(mid) + Concat(right)
  {
    ConcatOfParts(left, mid);
    ConcatOfParts(left + mid, right);
  }

  lemma ThreeSlices(p: seq<bytes>, i: nat, j: nat)
    requires i <= j <= |p|
    ensures p == p[..i] + p[i..j] + p[j..]
  {
  }

  /** The groups that are printed, with zeros in place of the run that is not, are all the groups. */
  lemma {:induction false} ConcatAroundRun(pieces: seq<bytes>, r: Range)
    requires r.begin + r.len <= |pieces| && forall k :: r.begin <= k < r.begin + r.len ==> pieces[k] == [0, 0]
    ensures Concat(pieces) == Concat(pieces[..r.begin]) + Zeros(2 * r.len) + Concat(pieces[r.begin + r.len..])
  {
    var end := r.begin + r.len;
    var run := pieces[r.begin..end];
    assert Concat(run) == Zeros(2 * r.len) by { ConcatOfZeros(run); }
    ThreeSlices(pieces, r.begin, end);
    ConcatOfThree(pieces[..r.begin], run, pieces[end..]);
  }

  lemma PrintedIsLiteral(gs: seq<bytes>, r: Range)
    requires AllGroups(gs) && |gs| == 8 && r.begin + r.len <= 8 && r.len != 1
    ensures IsLiteral(PrintedLiteral(gs, r))
  {
    PiecesOfSlices(gs, r.begin);
    PiecesOfSlices(gs, r.begin + r.len);
  }

  lemma PlainLiteralValue(gs: seq<bytes>)
    requires AllGroups(gs) && |gs| == 8 && IsLiteral(Literal(gs, false, [], None))
    ensures LiteralValue(Literal(gs, false, [], None)) == GroupsBytes(gs)
  {
    Glue(GroupsBytes(gs), [], [], []);
    assert Zeros(0) == [];
  }

  lemma ContractedLiteralValue(left: seq<bytes>, right: seq<bytes>, len: nat)
    requires |left| + len + |right| == 8 && IsLiteral(Literal(left, true, right, None))
    ensures LiteralValue(Literal(left, true, right, None)) == GroupsBytes(left) + Zeros(2 * len) + GroupsBytes(right)
  {
    Glue(GroupsBytes(left) + Zeros(2 * len) + GroupsBytes(right), [], [], []);
  }

  lemma PrintedLiteralValue(gs: seq<bytes>, r: Range)
    requires AllGroups(gs) && |gs| == 8 && r.begin + r.len <= 8 && IsLiteral(PrintedLiteral(gs, r))
    requires forall k :: r.begin <= k < r.begin + r.len ==> Pieces(gs)[k] == [0, 0]
    ensures LiteralValue(PrintedLiteral(gs, r)) == Concat(Pieces(gs))
  {
    if r.len == 0 {
      PlainLiteralValue(gs);
    } else {
      ConcatAroundRun(Pieces(gs), r);
      PiecesOfSlices(gs, r.begin);
      PiecesOfSlices(gs, r.begin + r.len);
      ContractedLiteralValue(gs[..r.begin], gs[r.begin + r.len..], r.len);
    }
  }

  lemma PrintedReads(gs: seq<bytes>, r: Range)
    requires AllGroups(gs) && |gs| == 8 && r.begin + r.len <= 8 && r.len != 1
    requires forall k :: r.begin <= k < r.begin + r.len ==> Pieces(gs)[k] == [0, 0]
    ensures TextNumber(PrintFrom(gs, r, 0)) == Some(Concat(Pieces(gs)))
  {
    PrintedIsLiteral(gs, r);
    PrintedLiteralValue(gs, r);
    PrintIsLiteralText(gs, r);
    LiteralIsAccepted(PrintedLiteral(gs, r));
  }

  lemma PrintedPieces(a: bytes)
    requires |a| == 16
    ensures var gs := HexGroups(Words(a));
      AllGroups(gs) && forall k :: 0 <= k < 8 ==> Pieces(gs)[k] == [a[2 * k], a[2 * k + 1]]
  {
    var ws := Words(a);
    PrintedGroups(ws);
    forall k | 0 <= k < 8 ensures Pieces(HexGroups(ws))[k] == [a[2 * k], a[2 * k + 1]] {
      assert ws[k] == a[2 * k] as nat * 0x100 + a[2 * k + 1];
    }
  }

  lemma ZeroPieces(a: bytes, r: Range)
    requires |a| == 16 && IsZeroRun(Words(a), r)
    ensures AllGroups(HexGroups(Words(a)))
    ensures forall k :: r.begin <= k < r.begin + r.len ==> Pieces(HexGroups(Words(a)))[k] == [0, 0]
  {
    PrintedGroups(Words(a));
  }

  /** Every sixteen bytes are read back from their printed form. */
  lemma PrintedReadsBack6(a: bytes)
    requires |a| == 16
    ensures TextNumber(AddressText6(a)) == Some(a)
  {
    var r := ContractionRange(Words(a));
    ContractionIsLeftmostLongest(Words(a));
    ZeroPieces(a, r);
    PrintedReads(HexGroups(Words(a)), r);
    PrintedPieces(a);
    ConcatOfPairs(a, Pieces(HexGroups(Words(a))));
  }

  /** RFC 5952, sections 4.1 and 4.3: lower-case digits, and no leading zeros. */
  predicate IsShortGroup(g: bytes) {
    && IsGroup(g) && (g[0] as char == '0' ==> |g| == 1)
    && forall k :: 0 <= k < |g| ==> '0' <= g[k] as char <= '9' || 'a' <= g[k] as char <= 'f'
  }

  lemma PrintedGroupIsShort(w: nat)
    requires w < 0x1_0000
    ensures IsShortGroup(Hexadecimal(w))
  {
    PrintedGroup(w);
    HexadecimalValue(w);
    var g := Hexadecimal(w);
    forall k | 0 <= k < |g| ensures '0' <= g[k] as char <= '9' || 'a' <= g[k] as char <= 'f' {
      assert Hex.IsDigit(g[k]) && !IsUpper(g[k]);
    }
  }

  /** Every address is printed as a literal of the grammar, with all groups as short as they can be and no dotted tail. */
  lemma PrintedIsShort(a: bytes)
    requires |a| == 16
    ensures var r := ContractionRange(Words(a));
      && r.begin + r.len <= 8
      && var lit := PrintedLiteral(HexGroups(Words(a)), r);
      && AddressText6(a) == LiteralText(lit) && lit.tail == None
      && (forall k :: 0 <= k < |lit.left| ==> IsShortGroup(lit.left[k]))
      && forall k :: 0 <= k < |lit.right| ==> IsShortGroup(lit.right[k])
  {
    var ws := Words(a);
    ContractionIsLeftmostLongest(ws);
    PrintIsLiteralText(HexGroups(ws), ContractionRange(ws));
    forall k | 0 <= k < 8 ensures IsShortGroup(HexGroups(ws)[k]) { PrintedGroupIsShort(ws[k]); }
  }

  /** Different addresses are printed differently. */
  lemma PrintingIsInjective(a: bytes, b: bytes)
    requires |a| == |b| == 16 && AddressText6(a) == AddressText6(b)
    ensures a == b
  {
    PrintedReadsBack6(a);
    PrintedReadsBack6(b);
  }
}
