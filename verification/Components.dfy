/** Ranges of a string (url_parse.h). A length of -1 stands for a component that is not there. */
module Components {
  import opened Bytes

  datatype Component = Component(begin: nat, len: int) {
    predicate IsValid() { len != -1 }

    predicate IsNonempty() { len > 0 }

    function End(): int { begin + len }

    /** The component lies within the string. */
    predicate Within(spec: bytes) { len >= -1 && (len >= 0 ==> begin + len <= |spec|) }

    /** The text of the component, None for one that is not there. */
    function Text(spec: bytes): (t: Option<bytes>)
      requires Within(spec)
      ensures t.Some? <==> IsValid()
      ensures t.Some? ==> |t.value| == len
    {
      if len == -1 then None else Some(spec[begin..begin + len])
    }
  }

  const NO_COMPONENT := Component(0, -1)

  function MakeRange(begin: nat, end: nat): Component
    requires begin <= end
  {
    Component(begin, end - begin)
  }

  datatype Parsed = Parsed(
    scheme: Component,
    username: Component,
    password: Component,
    host: Component,
    port: Component,
    path: Component,
    query: Component,
    ref: Component)
  {
    predicate Within(s: bytes) {
      && scheme.Within(s) && username.Within(s) && password.Within(s) && host.Within(s)
      && port.Within(s) && path.Within(s) && query.Within(s) && ref.Within(s)
    }
  }
}
