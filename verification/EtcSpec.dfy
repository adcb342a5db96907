/**
 Schemes, user info, ports, queries and references (url_canon_etc.cc, url_canon_query.cc and ParsePort), for ASCII
 components, and what a second canonicalization makes of them.
 */
module EtcSpec {
  import opened Bytes
  import opened Components
  import opened Numbers

  /** A component and the mark before it, as they appear in a URL. */
  function WithMark(mark: byte, s: Option<bytes>): bytes {
    match s
    case None => []
    case Some(t) => [mark] + t
  }

  /** The range of a component that is written at begin. */
  function RangeOf(s: Option<bytes>, begin: nat): Component {
    match s
    case None => NO_COMPONENT
    case Some(t) => Component(begin, |t|)
  }

  // ---- Scheme --------------------------------------------------------------

  /** kSchemeCanonical: None for a character that no scheme may have. */
  function SchemeChar(c: byte): (r: Option<byte>)
    ensures r.Some? ==> !IsUpper(r.value) && r.value != COLON && 0x2B <= r.value < 0x80
  {
    if IsUpper(c) then Some(c + 0x20)
    else if IsLower(c) || IsDigit(c) || c == 0x2B || c == 0x2D || c == DOT then Some(c)
    else None
  }

  /** The first character of a scheme must be a letter. */
  function SchemeCharAt(s: bytes, i: nat): Option<byte>
    requires i < |s|
  {
    if i > 0 || IsLower(s[i]) || IsUpper(s[i]) then SchemeChar(s[i]) else None
  }

  datatype Checked = Checked(text: bytes, ok: bool)

  /** What an invalid character is replaced by: a percent sign stays, to avoid escaping it again and again. */
  function BadSchemeChar(c: byte): bytes { if c == PERCENT then [PERCENT] else Escaped(c) }

  /** DoScheme from position i on. */
  function SchemeFrom(s: bytes, i: nat): Checked
    requires i <= |s|
    decreases |s| - i
  {
    if i == |s| then Checked([], true)
    else
      var rest := SchemeFrom(s, i + 1);
      match SchemeCharAt(s, i)
      case Some(c) => Checked([c] + rest.text, rest.ok)
      case None => Checked(BadSchemeChar(s[i]) + rest.text, false)
  }

  function Scheme(s: bytes): Checked { SchemeFrom(s, 0) }

  predicate IsSchemeText(s: bytes) { forall k :: 0 <= k < |s| ==> SchemeCharAt(s, k) == Some(s[k]) }

  lemma {:induction false} GoodScheme(s: bytes, i: nat)
    requires i <= |s| && SchemeFrom(s, i).ok
    ensures var t := SchemeFrom(s, i).text;
      |t| == |s| - i && forall k :: 0 <= k < |t| ==> SchemeCharAt(s, i + k) == Some(t[k])
    decreases |s| - i
  {
    if i < |s| { GoodScheme(s, i + 1); }
  }

  lemma {:induction false} SchemeTextIsFixed(s: bytes, i: nat)
    requires i <= |s| && IsSchemeText(s)
    ensures SchemeFrom(s, i) == Checked(s[i..], true)
    decreases |s| - i
  {
    if i < |s| { SchemeTextIsFixed(s, i + 1); }
  }

  /** A valid scheme is lower-cased, has no colon, and is left alone the next time. */
  lemma SchemeIdempotent(s: bytes)
    requires Scheme(s).ok
    ensures var t := Scheme(s).text;
      |t| == |s| && IsSchemeText(t) && Scheme(t) == Checked(t, true)
  {
    GoodScheme(s, 0);
    var t := Scheme(s).text;
    forall k | 0 <= k < |t| ensures SchemeCharAt(t, k) == Some(t[k]) { assert SchemeCharAt(s, 0 + k) == Some(t[k]); }
    SchemeTextIsFixed(t, 0);
    assert t[0..] == t;
  }

  // ---- User info and query -------------------------------------------------

  /** The two character types of AppendStringOfType that occur. */
  datatype CharType = Query | UserInfo {
    predicate Has(c: byte) { if Query? then IsQueryChar(c) else IsUserInfoChar(c) }
  }

  /** Characters of the type stay, all others are escaped. */
  function TextOfType(s: bytes, i: nat, type_: CharType): bytes
    requires i <= |s|
    decreases |s| - i
  {
    if i == |s| then []
    else (if type_.Has(s[i]) then [s[i]] else Escaped(s[i])) + TextOfType(s, i + 1, type_)
  }

  predicate AllOfType(s: bytes, type_: CharType) { forall k :: 0 <= k < |s| ==> type_.Has(s[k]) }

  lemma {:induction false} TextIsOfType(s: bytes, i: nat, type_: CharType)
    requires i <= |s|
    ensures AllOfType(TextOfType(s, i, type_), type_)
    ensures i < |s| ==> |TextOfType(s, i, type_)| > 0
    decreases |s| - i
  {
    if i < |s| { TextIsOfType(s, i + 1, type_); }
  }

  lemma {:induction false} OfTypeIsFixed(s: bytes, i: nat, type_: CharType)
    requires i <= |s| && AllOfType(s, type_)
    ensures TextOfType(s, i, type_) == s[i..]
    decreases |s| - i
  {
    if i < |s| { OfTypeIsFixed(s, i + 1, type_); }
  }

  /** Escapes are never resolved and percent signs never escaped, so once is enough. */
  lemma TextOfTypeIdempotent(s: bytes, type_: CharType)
    ensures var t := TextOfType(s, 0, type_); AllOfType(t, type_) && TextOfType(t, 0, type_) == t
  {
    TextIsOfType(s, 0, type_);
    var t := TextOfType(s, 0, type_);
    OfTypeIsFixed(t, 0, type_);
    assert t[0..] == t;
  }

  /** DoUserInfo: the user name and the password that are written. */
  function CanonicalUserInfo(username: Option<bytes>, password: Option<bytes>): (Option<bytes>, Option<bytes>) {
    var user, pass := username.GetOr([]), password.GetOr([]);
    if |user| == 0 && |pass| == 0 then (None, None)
    else (Some(TextOfType(user, 0, UserInfo)), if |pass| == 0 then None else Some(TextOfType(pass, 0, UserInfo)))
  }

  function UserInfoText(user: Option<bytes>, pass: Option<bytes>): bytes {
    match user
    case None => []
    case Some(name) => name + WithMark(COLON, pass) + [AT]
  }

  lemma UserInfoIdempotent(username: Option<bytes>, password: Option<bytes>)
    ensures var (user, pass) := CanonicalUserInfo(username, password);
      && CanonicalUserInfo(user, pass) == (user, pass)
      && (user.Some? ==> AllOfType(user.value, UserInfo))
      && (pass.Some? ==> user.Some? && |pass.value| > 0 && AllOfType(pass.value, UserInfo))
  {
    TextOfTypeIdempotent(username.GetOr([]), UserInfo);
    TextOfTypeIdempotent(password.GetOr([]), UserInfo);
    TextIsOfType(username.GetOr([]), 0, UserInfo);
    TextIsOfType(password.GetOr([]), 0, UserInfo);
  }

  function CanonicalQuery(query: Option<bytes>): Option<bytes> {
    match query
    case None => None
    case Some(s) => Some(TextOfType(s, 0, Query))
  }

  // ---- Reference -----------------------------------------------------------

  /** NULs are dropped, control characters escaped, everything else is kept. */
  function RefText(s: bytes, i: nat): bytes
    requires i <= |s|
    decreases |s| - i
  {
    if i == |s| then []
    else (if s[i] == 0 then [] else if s[i] < 0x20 then Escaped(s[i]) else [s[i]]) + RefText(s, i + 1)
  }

  predicate NoControl(s: bytes) { forall k :: 0 <= k < |s| ==> 0x20 <= s[k] }

  lemma {:induction false} RefHasNoControl(s: bytes, i: nat)
    requires i <= |s|
    ensures NoControl(RefText(s, i))
    decreases |s| - i
  {
    if i < |s| { RefHasNoControl(s, i + 1); }
  }

  lemma {:induction false} NoControlIsFixed(s: bytes, i: nat)
    requires i <= |s| && NoControl(s)
    ensures RefText(s, i) == s[i..]
    decreases |s| - i
  {
    if i < |s| { NoControlIsFixed(s, i + 1); }
  }

  lemma RefIdempotent(s: bytes)
    ensures var t := RefText(s, 0); NoControl(t) && RefText(t, 0) == t
  {
    RefHasNoControl(s, 0);
    var t := RefText(s, 0);
    NoControlIsFixed(t, 0);
    assert t[0..] == t;
  }

  predicate AllNul(s: bytes, i: nat) { forall k :: i <= k < |s| ==> s[k] == 0 }

  /** Behind the last space there are only NULs, which are dropped. */
  predicate EndsInSpace(s: bytes, i: nat) { exists k :: i <= k < |s| && s[k] == SPACE && AllNul(s, k + 1) }

  lemma {:induction false} EmptyIffAllNul(s: bytes, i: nat)
    requires i <= |s|
    ensures |RefText(s, i)| == 0 <==> AllNul(s, i)
    decreases |s| - i
  {
    if i < |s| { EmptyIffAllNul(s, i + 1); }
  }

  /** When the canonical reference ends in a space, told by the input. */
  lemma {:induction false} RefEnd(s: bytes, i: nat)
    requires i <= |s|
    ensures var t := RefText(s, i); (|t| > 0 && t[|t| - 1] <= SPACE) <==> EndsInSpace(s, i)
    decreases |s| - i
  {
    RefHasNoControl(s, i);
    if i < |s| {
      RefEnd(s, i + 1);
      EmptyIffAllNul(s, i + 1);
      assert EndsInSpace(s, i) <==> (s[i] == SPACE && AllNul(s, i + 1)) || EndsInSpace(s, i + 1);
    }
  }

  function CanonicalRef(ref: Option<bytes>): Option<bytes> {
    match ref
    case None => None
    case Some(s) => Some(RefText(s, 0))
  }

  // ---- Port ----------------------------------------------------------------

  datatype Port = Unspecified | Invalid | Port(number: nat)

  /** ParsePort: any number of leading zeros, then a number up to 65535. */
  function PortNumber(s: Option<bytes>): Port {
    if s == None || |s.value| == 0 then Unspecified
    else if AllDigits(s.value, Dec) && Value(s.value, Dec) <= 65535 then Port(Value(s.value, Dec))
    else Invalid
  }

  /** AppendInvalidNarrowString. */
  function InvalidText(s: bytes, i: nat): bytes
    requires i <= |s|
    decreases |s| - i
  {
    if i == |s| then []
    else (if s[i] <= SPACE || s[i] == 0x7F then Escaped(s[i]) else [s[i]]) + InvalidText(s, i + 1)
  }

  /** DoPort: what stands behind the colon, None for no port. */
  datatype PortResult = PortResult(text: Option<bytes>, ok: bool)

  function CanonicalPort(s: Option<bytes>, defaultPort: Port): PortResult
    requires !defaultPort.Invalid?
  {
    var n := PortNumber(s);
    if n == Unspecified || n == defaultPort then PortResult(None, true)
    else if n == Invalid then PortResult(Some(InvalidText(s.value, 0)), false)
    else PortResult(Some(Decimal(n.number)), true)
  }

  lemma DecimalPort(n: nat)
    requires n <= 65535
    ensures PortNumber(Some(Decimal(n))) == Port(n)
  {
    DecimalValue(n);
  }

  lemma PortIdempotent(s: Option<bytes>, defaultPort: Port)
    requires !defaultPort.Invalid? && CanonicalPort(s, defaultPort).ok
    ensures var t := CanonicalPort(s, defaultPort).text;
      && CanonicalPort(t, defaultPort) == PortResult(t, true)
      && (t.Some? ==> |t.value| > 0 && AllDigits(t.value, Dec))
  {
    var n := PortNumber(s);
    if n.Port? {
      DecimalPort(n.number);
      DecimalValue(n.number);
    }
  }
}
