/** The `Host` record: one cluster member as a hostname, an IPv4 address
    and a port, each constrained at construction time. */
module Hosts {
  import opened Wrappers
  import opened PyStr
  import IPv4

  /** A field of `Host` that failed its constraint. */
  datatype Field = NameField | PortField

  /** Why building the settings failed. */
  datatype Error =
    | InvalidHost(fields: seq<Field>)   // validation error raised by `Host(...)`, listing every failing field
    | BadUrl(token: string)             // the token does not read as `raft://host[:port]`
    | Unresolved(host: string)          // `gethostbyname` raised
    | BadAddress(text: string)          // `IPv4Address` rejected the resolver's answer
    | NoHosts                           // `raise EnvironmentError` in `json_loads`
    | EmptyPartners                     // the assertion in `root_validator`
    | PartnersNotIterable               // with assertions stripped, iterating a missing `partners`

  /** A validated member: `name` from reverse DNS, `ip`, `port`. Equality is
      over all three fields, as for the record it models. */
  datatype Host = Host(name: string, ip: IPv4.Address, port: int)

  predicate NameChar(ch: char)
  {
    'a' <= ch <= 'z' || '0' <= ch <= '9'
  }

  predicate LowerAlnum(w: string)
  {
    |w| >= 1 && forall k :: 0 <= k < |w| ==> NameChar(w[k])
  }

  /** The `name` constraint, a match of `^[a-z0-9]+$` from the start of the
      string. Outside multi-line mode `$` matches at the very end and also
      just before one final newline, so "db1\n" passes too. */
  predicate NameMatches(name: string)
  {
    LowerAlnum(name) || (|name| >= 2 && name[|name| - 1] == '\n' && LowerAlnum(name[..|name| - 1]))
  }

  /** The `port` constraint: strictly greater than 1024, strictly less
      than 65535. */
  predicate PortInRange(port: int)
  {
    1024 < port < 65535
  }

  /** What every constructed `Host` satisfies. */
  predicate Valid(h: Host)
  {
    NameMatches(h.name) && PortInRange(h.port)
  }

  /** The fields that fail, in declaration order. A missing port (`None`)
      fails like an out-of-range one. */
  function FieldErrors(name: string, port: Option<int>): (fs: seq<Field>)
    ensures NameField in fs <==> !NameMatches(name)
    ensures PortField in fs <==> !(port.Some? && PortInRange(port.value))
    ensures fs == [] <==> NameMatches(name) && port.Some? && PortInRange(port.value)
  {
    (if NameMatches(name) then [] else [NameField]) +
    (if port.Some? && PortInRange(port.value) then [] else [PortField])
  }

  /** `Host(name=..., ip=..., port=...)`: either every constraint holds and
      the record exists, or it is rejected naming every failing field. The
      address is already an `IPv4.Address` value here, so it cannot fail. */
  function MakeHost(name: string, ip: IPv4.Address, port: Option<int>): (r: Result<Host, Error>)
    ensures r.Ok? <==> NameMatches(name) && port.Some? && PortInRange(port.value)
    ensures r.Ok? ==> Valid(r.value) && r.value.name == name && r.value.ip == ip && Some(r.value.port) == port
    ensures r.Err? ==> r.error.InvalidHost? && r.error.fields != []
    ensures r.Err? ==> (NameField in r.error.fields <==> !NameMatches(name))
    ensures r.Err? ==> (PortField in r.error.fields <==> !(port.Some? && PortInRange(port.value)))
  {
    var fs := FieldErrors(name, port);
    if fs == [] then Ok(Host(name, ip, port.value)) else Err(InvalidHost(fs))
  }

  /** The port bounds are both strict. */
  lemma PortBoundaries(name: string, ip: IPv4.Address)
    requires NameMatches(name)
    ensures MakeHost(name, ip, Some(1024)) == Err(InvalidHost([PortField]))
    ensures MakeHost(name, ip, Some(65535)) == Err(InvalidHost([PortField]))
    ensures MakeHost(name, ip, Some(1025)) == Ok(Host(name, ip, 1025))
    ensures MakeHost(name, ip, Some(65534)) == Ok(Host(name, ip, 65534))
  {
    var low := FieldErrors(name, Some(1024));
    assert low == [] + [PortField];
    assert low == [PortField];
    assert MakeHost(name, ip, Some(1024)) == Err(InvalidHost(low));
    assert FieldErrors(name, Some(65535)) == [] + [PortField];
  }

  /** For a name without a newline the constraint is exactly "non-empty,
      every character a lower-case ASCII letter or a digit". */
  lemma NameWithoutNewline(name: string)
    requires '\n' !in name
    ensures NameMatches(name) <==> |name| >= 1 && forall k :: 0 <= k < |name| ==> NameChar(name[k])
  {
  }

  /** One final newline is tolerated, a second one is not, and the empty
      name never passes. */
  lemma NameTrailingNewline(w: string)
    requires LowerAlnum(w)
    ensures NameMatches(w) && NameMatches(w + "\n")
    ensures !NameMatches(w + "\n\n")
    ensures !NameMatches("") && !NameMatches("\n")
  {
    var once, twice := w + "\n", w + "\n\n";
    assert once[..|once| - 1] == w;
    assert !NameChar(twice[|twice| - 1]);
    assert !NameChar(twice[..|twice| - 1][|twice| - 2]);
  }

  /** A name holding a dot (a fully qualified one) never passes. */
  lemma DottedNameRejected(name: string)
    requires '.' in name
    ensures !NameMatches(name)
  {
    var k :| 0 <= k < |name| && name[k] == '.';
    if k == |name| - 1 {
      assert !NameChar(name[|name| - 1]);
    }
  }

  /** `Host.env`: the address, a colon, the port, as `f'{ip}:{port}'`
      renders them. It holds no apostrophe and no comma, so it survives the
      quoting of the re-export unchanged. */
  function Env(h: Host): (r: string)
    ensures forall k :: 0 <= k < |r| ==> IsDigit(r[k]) || r[k] in ".:-"
    ensures '\'' !in r && ',' !in r
  {
    IPv4.TextChars(h.ip);
    IPv4.Text(h.ip) + ":" + IntText(h.port)
  }

  /** `Host.__str__`. */
  function Str(h: Host): string
  {
    Env(h)
  }

  /** `Host.__repr__`. */
  function Repr(h: Host): string
  {
    Env(h)
  }
}
