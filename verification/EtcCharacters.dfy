/**
 What becomes of the characters of schemes, user info, ports, queries and references, with the alphabets written out:
 which stay, which are escaped, and that nothing gets lost.
 */
module EtcCharacters {
  import opened Bytes
  import opened Characters
  import opened Numbers
  import opened EtcSpec

  // ---- Scheme ----------------------------------------------------------------

  predicate InScheme(c: byte) { Letter(c) || Digit(c) || Among(c, "+-.") }

  /** Section 3.1 of RFC 3986; an absent scheme is no error here. */
  predicate IsScheme(s: bytes) { (|s| > 0 ==> Letter(s[0])) && forall k :: 0 <= k < |s| ==> InScheme(s[k]) }

  lemma SchemeCharIs(s: bytes, i: nat)
    requires i < |s|
    ensures SchemeCharAt(s, i).Some? <==> InScheme(s[i]) && (i == 0 ==> Letter(s[i]))
    ensures SchemeCharAt(s, i).Some? ==> SchemeCharAt(s, i).value == Lower(s[i])
  {
  }

  lemma {:induction false} SchemeFromIs(s: bytes, i: nat)
    requires i <= |s|
    ensures SchemeFrom(s, i).ok <==> forall k :: i <= k < |s| ==> SchemeCharAt(s, k).Some?
    ensures SchemeFrom(s, i).ok ==> SchemeFrom(s, i).text == LowerCase(s[i..])
    decreases |s| - i
  {
    if i < |s| {
      SchemeFromIs(s, i + 1);
      SchemeCharIs(s, i);
      if SchemeFrom(s, i).ok {
        assert s[i..][0] == s[i] && s[i..][1..] == s[i + 1..];
        assert LowerCase(s[i..]) == [Lower(s[i])] + LowerCase(s[i + 1..]);
      }
    }
  }

  /** A scheme is accepted if and only if it is one of the standard's, and is written in lower case. */
  lemma SchemeIsLowerCase(s: bytes)
    ensures Scheme(s).ok <==> IsScheme(s)
    ensures Scheme(s).ok ==> Scheme(s).text == LowerCase(s)
  {
    SchemeFromIs(s, 0);
    assert s[0..] == s;
    forall k | 0 <= k < |s| ensures SchemeCharAt(s, k).Some? <==> InScheme(s[k]) && (k == 0 ==> Letter(s[k])) { SchemeCharIs(s, k); }
  }

  /** What is shown of a scheme, valid or not: characters of the alphabet in lower case, percent signs, and escapes. */
  function SchemeShown(s: bytes, first: bool): bytes {
    if |s| == 0 then []
    else
      (if (if first then Letter(s[0]) else InScheme(s[0])) then [Lower(s[0])]
       else if s[0] as char == '%' then Ascii("%")
       else Escaped(s[0]))
      + SchemeShown(s[1..], false)
  }

  lemma {:induction false} SchemeFromIsShown(s: bytes, i: nat)
    requires i <= |s|
    ensures SchemeFrom(s, i).text == SchemeShown(s[i..], i == 0)
    decreases |s| - i
  {
    if i < |s| {
      SchemeFromIsShown(s, i + 1);
      SchemeCharIs(s, i);
      assert s[i..][0] == s[i] && s[i..][1..] == s[i + 1..];
      assert Ascii("%") == [PERCENT];
    }
  }

  lemma SchemeIsShown(s: bytes)
    ensures Scheme(s).text == SchemeShown(s, true)
  {
    SchemeFromIsShown(s, 0);
    assert s[0..] == s;
  }

  // ---- User info and query ---------------------------------------------------

  predicate InQuery(c: byte) { Letter(c) || Digit(c) || Among(c, "!$%&()*+,-./:;=?@[\\]^_`{|}~") }

  predicate InUserInfo(c: byte) { Letter(c) || Digit(c) || Among(c, "!$%&()*+,-._~") }

  lemma AlphabetsAgree(c: byte)
    ensures IsQueryChar(c) <==> InQuery(c)
    ensures IsUserInfoChar(c) <==> InUserInfo(c)
  {
  }

  function Alphabet(type_: CharType): byte -> bool { if type_.Query? then InQuery else InUserInfo }

  lemma AlphabetsKeepEscapes(type_: CharType)
    ensures KeepsEscapes(Alphabet(type_))
  {
    assert InQuery(PERCENT) && InUserInfo(PERCENT);
  }

  lemma {:induction false} TextOfTypeIs(s: bytes, i: nat, type_: CharType)
    requires i <= |s|
    ensures TextOfType(s, i, type_) == EscapedBut(s[i..], Alphabet(type_))
    decreases |s| - i
  {
    if i < |s| {
      TextOfTypeIs(s, i + 1, type_);
      AlphabetsAgree(s[i]);
      assert s[i..][0] == s[i] && s[i..][1..] == s[i + 1..];
    }
  }

  lemma TextOfTypeMeans(s: bytes, type_: CharType)
    ensures var t := TextOfType(s, 0, type_); t == EscapedBut(s, Alphabet(type_)) && Decoded(t) == Decoded(s)
  {
    TextOfTypeIs(s, 0, type_);
    AlphabetsKeepEscapes(type_);
    EscapingIsDecoded(s, Alphabet(type_));
    assert s[0..] == s;
  }

  /** A user name is printed if either part has characters, a password if it has some. Both are escaped but for their
      alphabet, and decode to what they were. */
  lemma UserInfoIsKept(username: Option<bytes>, password: Option<bytes>)
    ensures var (user, pass) := CanonicalUserInfo(username, password);
      var name, word := username.GetOr([]), password.GetOr([]);
      && (user.Some? <==> |name| > 0 || |word| > 0) && (pass.Some? <==> |word| > 0)
      && (user.Some? ==> user.value == EscapedBut(name, InUserInfo) && Decoded(user.value) == Decoded(name))
      && (pass.Some? ==> pass.value == EscapedBut(word, InUserInfo) && Decoded(pass.value) == Decoded(word))
  {
    TextOfTypeMeans(username.GetOr([]), UserInfo);
    TextOfTypeMeans(password.GetOr([]), UserInfo);
  }

  lemma {:induction false} NothingToDecode(s: bytes)
    requires PERCENT !in s
    ensures Decoded(s) == s
  {
    if |s| > 0 {
      assert s[0] in s && forall c :: c in s[1..] ==> c in s;
      NothingToDecode(s[1..]);
    }
  }

  /** So a user name and a password without percent signs are found again by decoding. */
  lemma UserInfoIsFoundAgain(username: bytes, password: bytes)
    requires PERCENT !in username && PERCENT !in password && |username| > 0 && |password| > 0
    ensures var (user, pass) := CanonicalUserInfo(Some(username), Some(password));
      user.Some? && pass.Some? && Decoded(user.value) == username && Decoded(pass.value) == password
  {
    UserInfoIsKept(Some(username), Some(password));
    NothingToDecode(username);
    NothingToDecode(password);
  }

  /** A query is printed if there is one, even if it is empty, escaped but for its alphabet. It decodes to what it was. */
  lemma QueryIsKept(query: Option<bytes>)
    ensures var q := CanonicalQuery(query);
      && (q.Some? <==> query.Some?)
      && (q.Some? ==> q.value == EscapedBut(query.value, InQuery) && Decoded(q.value) == Decoded(query.value))
  {
    TextOfTypeMeans(query.GetOr([]), Query);
  }

  // ---- Reference ---------------------------------------------------------------

  predicate NoControlChar(c: byte) { c as char >= ' ' }

  function WithoutNuls(s: bytes): bytes {
    if |s| == 0 then [] else (if s[0] == 0 then [] else [s[0]]) + WithoutNuls(s[1..])
  }

  lemma {:induction false} RefTextIs(s: bytes, i: nat)
    requires i <= |s|
    ensures RefText(s, i) == EscapedBut(WithoutNuls(s[i..]), NoControlChar)
    decreases |s| - i
  {
    if i < |s| {
      RefTextIs(s, i + 1);
      assert s[i..][0] == s[i] && s[i..][1..] == s[i + 1..];
      var rest := WithoutNuls(s[i + 1..]);
      if s[i] == 0 {
        assert [] + rest == rest && [] + RefText(s, i + 1) == RefText(s, i + 1);
      } else {
        assert ([s[i]] + rest)[0] == s[i] && ([s[i]] + rest)[1..] == rest;
      }
    }
  }

  /** A reference is printed if there is one, without its NULs and with control characters escaped. It decodes to what it
      was, but for the NULs. */
  lemma RefIsKept(ref: Option<bytes>)
    ensures var r := CanonicalRef(ref);
      && (r.Some? <==> ref.Some?)
      && (r.Some? ==> var t := WithoutNuls(ref.value); r.value == EscapedBut(t, NoControlChar) && Decoded(r.value) == Decoded(t))
  {
    if ref.Some? {
      RefTextIs(ref.value, 0);
      assert ref.value[0..] == ref.value;
      EscapingIsDecoded(WithoutNuls(ref.value), NoControlChar);
    }
  }

  // ---- Port --------------------------------------------------------------------

  /** What is kept of a port that is no number. */
  predicate InInvalidPort(c: byte) { ' ' < c as char && c != 0x7F }

  lemma {:induction false} InvalidTextIs(s: bytes, i: nat)
    requires i <= |s|
    ensures InvalidText(s, i) == EscapedBut(s[i..], InInvalidPort)
    decreases |s| - i
  {
    if i < |s| {
      InvalidTextIs(s, i + 1);
      assert s[i..][0] == s[i] && s[i..][1..] == s[i + 1..];
    }
  }

  /** The number of a port, if it is one: decimal digits, at most 65535. */
  function PortValue(port: bytes): Option<nat> {
    if DigitsBelow(port, 10) && Numeral(port, 10) <= 65535 then Some(Numeral(port, 10)) else None
  }

  /** A port with characters in it: a number is printed in decimal, unless it is the default, and anything else makes it
      invalid. Without characters there is none. */
  lemma PortIsNumber(port: bytes, defaultPort: Port)
    requires !defaultPort.Invalid?
    ensures CanonicalPort(None, defaultPort) == CanonicalPort(Some([]), defaultPort) == PortResult(None, true)
    ensures |port| > 0 ==>
      var r := CanonicalPort(Some(port), defaultPort);
      match PortValue(port)
      case None => !r.ok && r.text.Some?
      case Some(n) => r == PortResult(if defaultPort == Port(n) then None else Some(Decimal(n)), true)
  {
    DigitsAre(port, Dec);
    if AllDigits(port, Dec) { ValueIs(port, Dec); }
  }

  /** An invalid port is shown as it was, with blanks and control characters escaped, and decodes to what it was. */
  lemma InvalidPortIsKept(port: bytes, defaultPort: Port)
    requires !defaultPort.Invalid? && PortNumber(Some(port)) == Invalid
    ensures var t := CanonicalPort(Some(port), defaultPort).text;
      t == Some(EscapedBut(port, InInvalidPort)) && Decoded(t.value) == Decoded(port)
  {
    InvalidTextIs(port, 0);
    assert port[0..] == port;
    EscapingIsDecoded(port, InInvalidPort);
  }
}
