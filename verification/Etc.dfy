/** url_canon_etc.cc, url_canon_query.cc, DoAppendStringOfType and DoParsePort: their loops against EtcSpec. */
module Etc {
  import opened Bytes
  import opened CanonOutputs
  import opened Components
  import opened Numbers
  import opened EtcSpec

  // ---- DoScheme ------------------------------------------------------------

  /** One character of the scheme. Its position matters only for the first one. */
  method WriteSchemeChar(scheme: bytes, i: nat, output: CanonOutput) returns (ok: bool)
    requires i < |scheme| && scheme[i] < 0x80
    modifies output
    ensures ok <==> SchemeCharAt(scheme, i).Some?
    ensures output.text == old(output.text)
      + match SchemeCharAt(scheme, i) case Some(c) => [c] case None => BadSchemeChar(scheme[i])
  {
    var ch := scheme[i];
    var replacement := None;
    if i == 0 {
      if IsLower(ch) || IsUpper(ch) {
        replacement := SchemeChar(ch);
      }
    } else {
      replacement := SchemeChar(ch);
    }
    if replacement.Some? {
      output.PushBack(replacement.value);
    } else if ch == PERCENT {
      output.PushBack(PERCENT);
    } else {
      output.AppendEscapedChar(ch);
    }
    return replacement.Some?;
  }

  /** An absent or empty scheme gives a lone colon. */
  method DoScheme(scheme: Option<bytes>, output: CanonOutput) returns (success: bool, outScheme: Component)
    requires AllAscii(scheme.GetOr([]))
    modifies output
    ensures var r := Scheme(scheme.GetOr([]));
      && output.text == old(output.text) + r.text + [COLON] && success == r.ok
      && outScheme == Component(|old(output.text)|, |r.text|)
  {
    var begin := output.Length();
    success := true;
    if scheme.None? || |scheme.value| == 0 {
      outScheme := Component(begin, 0);
      assert output.text + [] + [COLON] == output.text + [COLON];
      output.PushBack(COLON);
      return;
    }
    ghost var before, whole := output.text, Scheme(scheme.value);
    for i := 0 to |scheme.value|
      invariant before + whole.text == output.text + SchemeFrom(scheme.value, i).text
      invariant whole.ok == (success && SchemeFrom(scheme.value, i).ok)
    {
      ghost var text := output.text;
      var ok := WriteSchemeChar(scheme.value, i, output);
      Regroup(text, output.text[|text|..], SchemeFrom(scheme.value, i + 1).text);
      success := success && ok;
    }
    outScheme := Component(begin, output.Length() - begin);
    output.PushBack(COLON);
  }

  // ---- DoAppendStringOfType, AppendRaw8BitQueryString ------------------------

  /** The two functions have the same loop. */
  method AppendStringOfType(source: bytes, type_: CharType, output: CanonOutput)
    requires AllAscii(source)
    modifies output
    ensures output.text == old(output.text) + TextOfType(source, 0, type_)
  {
    for i := 0 to |source|
      invariant old(output.text) + TextOfType(source, 0, type_) == output.text + TextOfType(source, i, type_)
    {
      ghost var text := output.text;
      if !type_.Has(source[i]) {
        output.AppendEscapedChar(source[i]);
      } else {
        output.PushBack(source[i]);
      }
      Regroup(text, output.text[|text|..], TextOfType(source, i + 1, type_));
    }
  }

  // ---- DoUserInfo ----------------------------------------------------------

  /** The separator is needed only for a password with characters in it. */
  method WritePassword(password: bytes, output: CanonOutput) returns (outPassword: Component)
    requires AllAscii(password)
    modifies output
    ensures var pass := if |password| == 0 then None else Some(TextOfType(password, 0, UserInfo));
      && output.text == old(output.text) + WithMark(COLON, pass)
      && outPassword == RangeOf(pass, |old(output.text)| + 1)
  {
    if |password| == 0 {
      return NO_COMPONENT;
    }
    output.PushBack(COLON);
    var begin := output.Length();
    AppendStringOfType(password, UserInfo, output);
    outPassword := Component(begin, output.Length() - begin);
    Regroup(old(output.text), [COLON], TextOfType(password, 0, UserInfo));
  }

  /** Both parts are taken as texts. Empty ones are stripped, but a password alone keeps an empty user name. */
  method DoUserInfo(username: Option<bytes>, password: Option<bytes>, output: CanonOutput)
    returns (outUsername: Component, outPassword: Component)
    requires AllAscii(username.GetOr([])) && AllAscii(password.GetOr([]))
    modifies output
    ensures var (user, pass) := CanonicalUserInfo(username, password);
      && output.text == old(output.text) + UserInfoText(user, pass)
      && outUsername == RangeOf(user, |old(output.text)|)
      && outPassword == RangeOf(pass, |old(output.text)| + |user.GetOr([])| + 1)
  {
    var user, pass := username.GetOr([]), password.GetOr([]);
    if |user| == 0 && |pass| == 0 {
      return NO_COMPONENT, NO_COMPONENT;
    }
    ghost var before, mid := output.text, TextOfType(user, 0, UserInfo);
    var begin := output.Length();
    if |user| > 0 {
      AppendStringOfType(user, UserInfo, output);
    }
    assert output.text == before + mid;
    outUsername := Component(begin, output.Length() - begin);
    outPassword := WritePassword(pass, output);
    ghost var written := output.text[|before| + |mid|..];
    output.PushBack(AT);
    Regroup4(before, mid, written, [AT]);
  }

  // ---- DoParsePort, DoPort ---------------------------------------------------

  const MAX_PORT_DIGITS := 5

  /** A number of more than five digits without a leading zero is no port. */
  lemma LongIsNoPort(digits: bytes)
    requires |digits| > MAX_PORT_DIGITS && digits[0] != ZERO && AllDigits(digits, Dec)
    ensures Value(digits, Dec) > 65535
  {
    var kept := digits[..6];
    ValueAtLeast(kept, Dec);
    ValueOfPrefix(digits, 6, Dec);
    SmallPowers();
  }

  lemma ZerosDoNotCount(port: bytes, n: nat)
    requires n <= |port| && forall k :: 0 <= k < n ==> port[k] == ZERO
    ensures AllDigits(port, Dec) <==> AllDigits(port[n..], Dec)
    ensures AllDigits(port, Dec) ==> Value(port, Dec) == Value(port[n..], Dec)
  {
    assert forall k :: n <= k < |port| ==> port[k] == port[n..][k - n];
    if AllDigits(port, Dec) { LeadingZeros(port, n, Dec); }
  }

  /** Only what is behind the leading zeros is copied to the buffer. */
  method DoParsePort(port: Option<bytes>) returns (r: Port)
    ensures r == PortNumber(port)
  {
    if port.None? || |port.value| == 0 {
      return Unspecified;
    }
    var i := 0;
    while i < |port.value| && port.value[i] == ZERO
      invariant i <= |port.value| && forall k :: 0 <= k < i ==> port.value[k] == ZERO
    {
      i := i + 1;
    }
    var digits := port.value[i..];
    ZerosDoNotCount(port.value, i);
    if |digits| == 0 {
      return Port(0);
    }
    if |digits| > MAX_PORT_DIGITS {
      if AllDigits(digits, Dec) { LongIsNoPort(digits); }
      return Invalid;
    }
    var buf := new byte[MAX_PORT_DIGITS + 1];
    for j := 0 to |digits|
      invariant buf[..j] == digits[..j] && AllDigits(digits[..j], Dec)
    {
      if !Bytes.IsDigit(digits[j]) {
        return Invalid;
      }
      buf[j] := digits[j];
      assert digits[..j + 1] == digits[..j] + [digits[j]];
    }
    assert digits[..|digits|] == digits;
    var number := Value(buf[..|digits|], Dec);
    return if number > 65535 then Invalid else Port(number);
  }

  /** Part of reporting an error: only blanks and control characters are escaped. */
  method AppendInvalidNarrowString(spec: bytes, output: CanonOutput)
    requires AllAscii(spec)
    modifies output
    ensures output.text == old(output.text) + InvalidText(spec, 0)
  {
    for i := 0 to |spec|
      invariant old(output.text) + InvalidText(spec, 0) == output.text + InvalidText(spec, i)
    {
      ghost var text := output.text;
      if spec[i] <= SPACE || spec[i] == 0x7F {
        output.AppendEscapedChar(spec[i]);
      } else {
        output.PushBack(spec[i]);
      }
      Regroup(text, output.text[|text|..], InvalidText(spec, i + 1));
    }
  }

  /** The colon is written only if there will be a port. */
  method DoPort(port: Option<bytes>, defaultPort: Port, output: CanonOutput)
    returns (success: bool, outPort: Component)
    requires AllAscii(port.GetOr([])) && !defaultPort.Invalid?
    modifies output
    ensures var r := CanonicalPort(port, defaultPort);
      && output.text == old(output.text) + WithMark(COLON, r.text) && success == r.ok
      && outPort == RangeOf(r.text, |old(output.text)| + 1)
  {
    ghost var before := output.text;
    var number := DoParsePort(port);
    if number == Unspecified || number == defaultPort {
      return true, NO_COMPONENT;
    }
    output.PushBack(COLON);
    var begin := output.Length();
    ghost var text := CanonicalPort(port, defaultPort).text.value;
    assert before + [COLON] + text == before + ([COLON] + text);
    match number {
      case Invalid =>
        AppendInvalidNarrowString(port.value, output);
        success := false;
      case Port(n) =>
        PushEach(Decimal(n), output);
        success := true;
    }
    outPort := Component(begin, output.Length() - begin);
  }

  // ---- DoCanonicalizeQuery, DoCanonicalizeRef --------------------------------

  /** An ASCII query needs no conversion to another character set. */
  method DoCanonicalizeQuery(query: Option<bytes>, output: CanonOutput) returns (outQuery: Component)
    requires AllAscii(query.GetOr([]))
    modifies output
    ensures var r := CanonicalQuery(query);
      && output.text == old(output.text) + WithMark(QUESTION, r) && outQuery == RangeOf(r, |old(output.text)| + 1)
  {
    if query.None? {
      return NO_COMPONENT;
    }
    ghost var before, text := output.text, TextOfType(query.value, 0, Query);
    output.PushBack(QUESTION);
    var begin := output.Length();
    AppendStringOfType(query.value, Query, output);
    assert before + [QUESTION] + text == before + ([QUESTION] + text);
    outQuery := Component(begin, output.Length() - begin);
  }

  method DoCanonicalizeRef(ref: Option<bytes>, output: CanonOutput) returns (outRef: Component)
    requires AllAscii(ref.GetOr([]))
    modifies output
    ensures var r := CanonicalRef(ref);
      && output.text == old(output.text) + WithMark(HASH, r) && outRef == RangeOf(r, |old(output.text)| + 1)
  {
    if ref.None? {
      return NO_COMPONENT;
    }
    ghost var before, whole := output.text, RefText(ref.value, 0);
    output.PushBack(HASH);
    var begin := output.Length();
    for i := 0 to |ref.value|
      invariant before + [HASH] + whole == output.text + RefText(ref.value, i)
    {
      ghost var text := output.text;
      if ref.value[i] == 0 {
        assert text + [] == text;
      } else if ref.value[i] < 0x20 {
        output.AppendEscapedChar(ref.value[i]);
      } else {
        output.PushBack(ref.value[i]);
      }
      Regroup(text, output.text[|text|..], RefText(ref.value, i + 1));
    }
    assert before + [HASH] + whole == before + ([HASH] + whole);
    outRef := Component(begin, output.Length() - begin);
  }
}
