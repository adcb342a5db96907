/** The class of scheme_host_port.cc against SchemeHostPortSpec. */
module SchemeHostPorts {
  import opened Bytes
  import opened CanonOutputs
  import opened Components
  import opened Numbers
  import opened EtcSpec
  import opened IPv4
  import opened HostSpec
  import opened Host
  import opened StandardUrlSpec
  import opened SchemeHostPortSpec

  /** A host is canonical if it canonicalizes to itself. An empty one, or one that fails, is compared to nothing. */
  method CheckCanonicalHost(host: bytes) returns (r: bool)
    requires !NeedsIdn(host)
    ensures r == IsCanonicalHost(host)
  {
    var output := new CanonOutput();
    var info := new CanonHostInfo();
    DoHost(Some(host), output, info);
    var canonHost := output.text;
    if !(info.outHost.IsNonempty() && info.family != BROKEN) {
      canonHost := [];
    }
    if |host| > 0 { SimpleHostNotEmpty(host); }
    return host == canonHost;
  }

  lemma SimpleHostNotEmpty(host: bytes)
    requires |host| > 0 && !NeedsIdn(host)
    ensures CanonicalHost(host).family != BROKEN ==> |CanonicalHost(host).text| > 0
  {
    if CanonicalHost(host).family != BROKEN { HostKeepsShape(host); }
  }

  class SchemeHostPort {
    var scheme: bytes
    var host: bytes
    var port: nat

    ghost function Value(): Tuple
      reads this
    {
      Tuple(scheme, host, port)
    }

    /** Input that is not valid makes an invalid object. */
    constructor (scheme: bytes, host: bytes, port: nat)
      requires !NeedsIdn(host) && port <= 0xFFFF
      ensures var t := Tuple(scheme, host, port); Value() == if IsValidInput(t) then t else INVALID
    {
      this.scheme, this.host, this.port := [], [], 0;
      new;
      var type_ := StandardSchemeType(scheme);
      if type_.None? || scheme == FILESYSTEM || scheme == BLOB || type_.value.WithoutAuthority? {
        return;
      }
      if if type_.value.WithPort? then |host| == 0 || port == 0 else port != 0 {
        return;
      }
      var canonical := CheckCanonicalHost(host);
      if canonical {
        this.scheme, this.host, this.port := scheme, host, port;
      }
    }

    method Serialize() returns (result: bytes)
      ensures result == Serialized(Value())
    {
      if |scheme| == 0 && |host| == 0 && port == 0 {
        return [];
      }
      result := scheme + SEPARATOR + host;
      if port == 0 {
        return result + [];
      }
      var default := DefaultPortForScheme(scheme);
      if default == Unspecified {
        return result + [];
      }
      if default != Port(port) {
        result := result + [COLON];
        result := result + Decimal(port);
        assert result == scheme + SEPARATOR + host + ([COLON] + Decimal(port));
      } else {
        assert result == result + [];
      }
    }

    method Equals(other: SchemeHostPort) returns (r: bool)
      ensures r <==> Value() == other.Value()
      ensures IsOrigin(Value()) && IsOrigin(other.Value()) && IsLowerCase(scheme) ==>
        (r <==> Serialized(Value()) == Serialized(other.Value()))
    {
      r := port == other.port && scheme == other.scheme && host == other.host;
      ghost var t, u := Value(), other.Value();
      if IsOrigin(t) && IsOrigin(u) && IsLowerCase(scheme) && Serialized(t) == Serialized(u) {
        SerializationIsFaithful(t, u);
      }
    }
  }
}
