/** url_canon_host.cc and CanonicalizeIPAddress: the loops and the rewinding of the output, against HostSpec. */
module Host {
  import opened Bytes
  import opened CanonOutputs
  import opened Components
  import opened IPv4Spec
  import opened IPv4
  import opened IPv6Print
  import opened IPv6
  import opened HostSpec

  class CanonHostInfo {
    var family: Family
    var numIPv4Components: nat
    var outHost: Component
    const address: array<byte>

    constructor ()
      ensures family == NEUTRAL && numIPv4Components == 0 && outHost == NO_COMPONENT
      ensures fresh(address) && address.Length == 16
    {
      family, numIPv4Components, outHost := NEUTRAL, 0, NO_COMPONENT;
      address := new byte[16](_ => 0);
    }
  }

  // ---- CanonicalizeIPAddress -----------------------------------------------

  /** The address that goes with an IP host. */
  function AddressOf(host: bytes): bytes {
    match HostNumber(host)
    case Address(a, _) => a
    case _ => HostNumber6(host).GetOr([])
  }

  /** True if a final decision is made, false if the host could use a second opinion. */
  method CanonicalizeIPv4(host: bytes, output: CanonOutput, info: CanonHostInfo) returns (decided: bool)
    requires info.address.Length == 16
    modifies output, info`family, info`numIPv4Components, info.address
    ensures decided <==> !HostNumber(host).Neutral?
    ensures match HostNumber(host)
      case Address(a, n) =>
        && info.family == IPV4 && info.numIPv4Components == n && info.address[..4] == a
        && output.text == old(output.text) + AddressText(a)
      case Broken => info.family == BROKEN && output.text == old(output.text)
      case Neutral => info.family == NEUTRAL && output.text == old(output.text)
  {
    var family, n := AddressToNumber(host, info.address, 0);
    info.family := family;
    info.numIPv4Components := n;
    match family {
      case IPV4 =>
        assert info.address[0..0 + 4] == info.address[..4];
        AppendIPv4Address(info.address[..4], output);
        return true;
      case BROKEN => return true;
      case _ => return false;
    }
  }

  /** Scan for characters that should only exist in an IPv6 address. */
  method LooksLikeIPv6(host: bytes) returns (found: bool)
    ensures found <==> !NoIPv6OnlyChar(host)
  {
    for i := 0 to |host|
      invariant forall k :: 0 <= k < i ==> !IsIPv6OnlyChar(host[k])
    {
      if host[i] == LBRACKET || host[i] == RBRACKET || host[i] == COLON {
        return true;
      }
    }
    return false;
  }

  method CanonicalizeIPv6(host: bytes, output: CanonOutput, info: CanonHostInfo) returns (decided: bool)
    requires info.address.Length == 16
    modifies output, info`family, info.address
    ensures match HostNumber6(host)
      case Some(a) =>
        && decided && info.family == IPV6 && info.address[..] == a
        && output.text == old(output.text) + Bracketed(a)
      case None =>
        && info.family == (if NoIPv6OnlyChar(host) then NEUTRAL else BROKEN)
        && output.text == old(output.text)
  {
    var ok := AddressToNumber6(host, info.address);
    if !ok {
      decided := LooksLikeIPv6(host);
      info.family := if decided then BROKEN else NEUTRAL;
      return;
    }
    var address := info.address[..];
    output.PushBack(LBRACKET);
    AppendIPv6Address(address, output);
    output.PushBack(RBRACKET);
    Regroup4(old(output.text), [LBRACKET], AddressText6(address), [RBRACKET]);
    info.family := IPV6;
    return true;
  }

  method CanonicalizeIPAddress(host: bytes, output: CanonOutput, info: CanonHostInfo)
    requires info.address.Length == 16
    modifies output, info`family, info`numIPv4Components, info.address
    ensures var r := CanonicalIP(host);
      && info.family == r.family
      && (if r.family == IPV4 || r.family == IPV6 then output.text == old(output.text) + r.text
          else output.text == old(output.text) && r.text == host)
    ensures info.family == IPV4 ==> info.address[..4] == AddressOf(host)
    ensures info.family == IPV6 ==> info.address[..] == AddressOf(host)
  {
    var decided := CanonicalizeIPv4(host, output, info);
    if decided {
      return;
    }
    decided := CanonicalizeIPv6(host, output, info);
  }

  // ---- DoSimpleHost --------------------------------------------------------

  method ScanHostname(host: bytes) returns (hasNonAscii: bool, hasEscaped: bool)
    ensures hasNonAscii <==> !AllAscii(host)
    ensures hasEscaped <==> HasEscaped(host)
  {
    hasNonAscii, hasEscaped := false, false;
    for i := 0 to |host|
      invariant hasNonAscii <==> exists k :: 0 <= k < i && host[k] >= 0x80
      invariant hasEscaped <==> exists k :: 0 <= k < i && host[k] == PERCENT
    {
      if host[i] >= 0x80 {
        hasNonAscii := true;
      } else if host[i] == PERCENT {
        hasEscaped := true;
      }
    }
  }

  /** One character, as it is or unescaped, through the lookup table. */
  method WriteCharacter(source: byte, output: CanonOutput) returns (ok: bool, nonAscii: bool)
    modifies output
    ensures output.text == old(output.text) + Written(source).out
    ensures ok == Written(source).ok && nonAscii == Written(source).nonAscii
  {
    if source < 0x80 {
      match Lookup(source) {
        case Disallowed =>
          output.AppendEscapedChar(source);
          return false, false;
        case Escape =>
          output.AppendEscapedChar(source);
        case Keep(replacement) =>
          output.PushBack(replacement);
      }
      return true, false;
    }
    output.PushBack(source);
    return true, true;
  }

  /** One round of the loop: an escape is decoded first, and a malformed one is spoilt by escaping its percent sign. */
  method WriteStep(host: bytes, i: nat, output: CanonOutput) returns (next: nat, ok: bool, nonAscii: bool)
    requires i < |host|
    modifies output
    ensures var (j, one) := HostStep(host, i);
      next == j && output.text == old(output.text) + one.out && ok == one.ok && nonAscii == one.nonAscii
  {
    var source := host[i];
    next := i + 1;
    if source == PERCENT {
      if !IsEscapeAt(host, i) {
        output.AppendEscapedChar(PERCENT);
        return next, false, false;
      }
      source := EscapeValue(host, i);
      next := i + 3;
    }
    ok, nonAscii := WriteCharacter(source, output);
  }

  /** The loop at position i, on its way to the whole. */
  ghost predicate OnTheWay(before: bytes, whole: Simple, text: bytes, success: bool, hasNonAscii: bool, rest: Simple) {
    && before + whole.out == text + rest.out
    && whole.ok == (success && rest.ok) && whole.nonAscii == (hasNonAscii || rest.nonAscii)
  }

  lemma OneStepOn(before: bytes, whole: Simple, text: bytes, success: bool, hasNonAscii: bool, one: Simple, rest: Simple)
    requires OnTheWay(before, whole, text, success, hasNonAscii, Both(one, rest))
    ensures OnTheWay(before, whole, text + one.out, success && one.ok, hasNonAscii || one.nonAscii, rest)
  {
    assert text + (one.out + rest.out) == text + one.out + rest.out;
  }

  method DoSimpleHost(host: bytes, output: CanonOutput) returns (success: bool, hasNonAscii: bool)
    modifies output
    ensures var r := SimpleHost(host, 0);
      output.text == old(output.text) + r.out && success == r.ok && hasNonAscii == r.nonAscii
  {
    ghost var before, whole := output.text, SimpleHost(host, 0);
    success, hasNonAscii := true, false;
    var i := 0;
    while i < |host|
      invariant i <= |host| && OnTheWay(before, whole, output.text, success, hasNonAscii, SimpleHost(host, i))
      decreases |host| - i
    {
      ghost var (j, one) := HostStep(host, i);
      OneStepOn(before, whole, output.text, success, hasNonAscii, one, SimpleHost(host, j));
      var next, ok, nonAscii := WriteStep(host, i, output);
      success, hasNonAscii := success && ok, hasNonAscii || nonAscii;
      i := next;
    }
  }

  // ---- DoHost --------------------------------------------------------------

  /** DoComplexHost, as far as it does without the IDN conversion: the host has escapes, and what they stand for
      either is all ASCII or makes the host invalid. */
  method DoComplexHost(host: bytes, output: CanonOutput) returns (success: bool)
    requires HasEscaped(host) && !NeedsIdn(host)
    modifies output
    ensures var r := SimpleHost(host, 0); output.text == old(output.text) + r.out && success == r.ok
  {
    var hasNonAscii;
    success, hasNonAscii := DoSimpleHost(host, output);
    if !success {
      return false;
    }
    assert !hasNonAscii;
    return true;
  }

  method Overwrite(begin: nat, text: bytes, output: CanonOutput, ghost before: bytes, ghost name: bytes)
    requires output.text == before + name && |before| == begin
    modifies output
    ensures output.text == before + text
  {
    Front(before, name);
    output.SetLength(begin);
    output.Append(text);
  }

  /** The canonical form of an IP address, written to an output of its own. */
  method CanonicalIPText(host: bytes, info: CanonHostInfo) returns (text: bytes)
    requires info.address.Length == 16
    modifies info`family, info`numIPv4Components, info.address
    ensures info.family == CanonicalIP(host).family
    ensures CanonicalIP(host).text == if info.family == IPV4 || info.family == IPV6 then text else host
  {
    var canonIP := new CanonOutput();
    CanonicalizeIPAddress(host, canonIP, info);
    text := canonIP.text;
  }

  /** If the name behind begin is an IP address, its canonical form is copied over it. */
  method ReplaceByIP(begin: nat, output: CanonOutput, info: CanonHostInfo, ghost before: bytes, ghost name: bytes)
    requires info.address.Length == 16 && output.text == before + name && |before| == begin
    modifies output, info`family, info`numIPv4Components, info.address
    ensures info.family == CanonicalIP(name).family && output.text == before + CanonicalIP(name).text
  {
    Front(before, name);
    var canonIP := CanonicalIPText(output.text[begin..], info);
    if info.family == IPV4 || info.family == IPV6 {
      Overwrite(begin, canonIP, output, before, name);
    }
  }

  /** The host is taken as a text. The output is rewound when the host is an IP address in another form. */
  method DoHost(host: Option<bytes>, output: CanonOutput, info: CanonHostInfo)
    requires info.address.Length == 16 && !NeedsIdn(host.GetOr([]))
    modifies output, info, info.address
    ensures |host.GetOr([])| == 0 ==>
      info.family == NEUTRAL && info.outHost == NO_COMPONENT && output.text == old(output.text)
    ensures |host.GetOr([])| > 0 ==> var r := CanonicalHost(host.value);
      && info.family == r.family && output.text == old(output.text) + r.text
      && info.outHost == Component(|old(output.text)|, |r.text|)
  {
    if host.None? || |host.value| == 0 {
      info.family := NEUTRAL;
      info.outHost := NO_COMPONENT;
      return;
    }
    ghost var before := output.text;
    var hasNonAscii, hasEscaped := ScanHostname(host.value);
    var outputBegin := output.Length();
    var success;
    if !hasNonAscii && !hasEscaped {
      success, hasNonAscii := DoSimpleHost(host.value, output);
    } else {
      success := DoComplexHost(host.value, output);
    }
    ghost var name := SimpleHost(host.value, 0).out;
    if !success {
      info.family := BROKEN;
    } else {
      ReplaceByIP(outputBegin, output, info, before, name);
    }
    info.outHost := MakeRange(outputBegin, output.Length());
  }
}
