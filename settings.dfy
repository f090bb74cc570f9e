/** `HostsSettings`: decoding an address list into `Host` records
    (`Config.json_loads`) and the cross-record check that drops the
    process's own address from its partners (`root_validator`). */
module Settings {
  import opened Wrappers
  import opened PyStr
  import IPv4
  import opened Hosts

  /** The literal separator `json_loads` splits on: apostrophe, comma,
      apostrophe. */
  const Separator: string := "','"

  /** The character stripped from both ends of every token. */
  const Quote: char := '\''

  /** `[i.strip("'") for i in value.split("','")]`. */
  function Tokens(value: string): (ts: seq<string>)
    ensures |ts| >= 1
  {
    var parts := Split(value, Separator);
    seq(|parts|, k requires 0 <= k < |parts| => Strip(parts[k], Quote))
  }

  /** One token per separator plus one, in input order; each is the piece
      of the input between two separators with its outer apostrophes gone. */
  lemma TokensShape(value: string)
    ensures |Tokens(value)| == Count(value, Separator) + 1
    ensures forall k :: 0 <= k < |Tokens(value)| ==> Tokens(value)[k] == Strip(Split(value, Separator)[k], Quote)
    ensures forall k :: 0 <= k < |Tokens(value)| ==>
      Tokens(value)[k] == [] || (Tokens(value)[k][0] != Quote && Tokens(value)[k][|Tokens(value)[k]| - 1] != Quote)
    ensures Join(Split(value, Separator), Separator) == value
  {
    SplitCount(value, Separator);
    SplitJoin(value, Separator);
    SplitClean(value, Separator);
  }

  /** A value without the separator is one token. */
  lemma TokensOfUnseparated(value: string)
    requires !Contains(value, Separator)
    ensures Tokens(value) == [Strip(value, Quote)]
  {
    SplitNone(value, Separator);
  }

  /** A host and an optional port, as read from `raft://<token>`. */
  datatype Url = Url(host: string, port: Option<nat>)

  /** `URL('raft://' + token)` read as a host and a decimal port after the
      first colon. No colon, or nothing after it, leaves the port unset; a
      missing host or a port that is not all digits is rejected. */
  function ParseUrl(token: string): (r: Result<Url, Error>)
    ensures r.Ok? ==> r.value.host != [] && ':' !in r.value.host && r.value.host <= token
    ensures r.Err? ==> r == Err(BadUrl(token))
  {
    var k := Find(token, ":");
    if k < 0 then
      if token == [] then
        Err(BadUrl(token))
      else
        assert forall i :: 0 <= i < |token| ==> token[i] != ':' by {
          FindLeftmost(token, ":");
          forall i | 0 <= i < |token| ensures token[i] != ':' {
            assert !OccursAt(token, ":", i);
            assert token[i..i + 1] == [token[i]];
          }
        }
        Ok(Url(token, None))
    else
      var host, digits := token[..k], token[k + 1..];
      if host == [] || !AllDigits(digits) then
        Err(BadUrl(token))
      else
        assert forall i :: 0 <= i < |host| ==> host[i] != ':' by {
          FindLeftmost(token, ":");
          forall i | 0 <= i < |host| ensures host[i] != ':' {
            assert !OccursAt(token, ":", i);
            assert token[i..i + 1] == [token[i]];
          }
        }
        Ok(Url(host, if digits == [] then None else Some(DigitsValue(digits))))
  }

  /** Reading back a host and a port that were written out as
      `host:port`. */
  lemma ParseUrlOf(host: string, port: nat)
    requires host != [] && ':' !in host
    ensures ParseUrl(host + ":" + DecimalText(port)) == Ok(Url(host, Some(port)))
  {
    var token := host + ":" + DecimalText(port);
    assert OccursAt(token, ":", |host|) by {
      assert token[|host|..|host| + 1] == ":";
    }
    forall i | 0 <= i < |host| ensures !OccursAt(token, ":", i) {
      assert token[i] == host[i];
      assert token[i..i + 1] == [token[i]];
    }
    FindLeftmost(token, ":");
    assert Find(token, ":") == |host|;
    assert token[..|host|] == host;
    assert token[|host| + 1..] == DecimalText(port);
    DecimalRoundTrip(port);
  }

  /** The list comprehension of `json_loads` for one URL:
      `Host(name=getfqdn(host), ip=IPv4Address(gethostbyname(host)), port=port)`.
      `fqdn` and `lookup` stand for the two DNS calls; `lookup` returns
      `None` where `gethostbyname` raises. */
  function BuildHost(u: Url, fqdn: string -> string, lookup: string -> Option<string>): (r: Result<Host, Error>)
    ensures r.Ok? <==> lookup(u.host).Some? && IPv4.Parse(lookup(u.host).value).Some?
                        && NameMatches(fqdn(u.host)) && u.port.Some? && PortInRange(u.port.value)
    ensures r.Ok? ==> Valid(r.value) && r.value.name == fqdn(u.host) && Some(r.value.port) == u.port
    ensures r.Ok? ==> lookup(u.host) == Some(IPv4.Text(r.value.ip))
    ensures lookup(u.host).None? ==> r == Err(Unresolved(u.host))
    ensures lookup(u.host).Some? && IPv4.Parse(lookup(u.host).value).None? ==> r == Err(BadAddress(lookup(u.host).value))
    ensures lookup(u.host).Some? && IPv4.Parse(lookup(u.host).value).Some? && r.Err? ==>
              r.error.InvalidHost? && r.error.fields != [] &&
              (NameField in r.error.fields <==> !NameMatches(fqdn(u.host))) &&
              (PortField in r.error.fields <==> !(u.port.Some? && PortInRange(u.port.value)))
  {
    var name := fqdn(u.host);
    match lookup(u.host)
    case None => Err(Unresolved(u.host))
    case Some(text) =>
      match IPv4.Parse(text)
      case None => Err(BadAddress(text))
      case Some(ip) =>
        IPv4.ParseIsCanonical(text);
        MakeHost(name, ip, if u.port.Some? then Some(u.port.value as int) else None)
  }

  /** What `json_loads` returns: one host, or a list of more than one. */
  datatype Loaded = One(host: Host) | Many(hosts: seq<Host>)

  function LoadedHosts(l: Loaded): seq<Host>
  {
    match l
    case One(h) => [h]
    case Many(hs) => hs
  }

  /** `HostsSettings.Config.json_loads`: tokenise, then build the hosts. */
  function JsonLoads(value: string, fqdn: string -> string, lookup: string -> Option<string>): (r: Result<Loaded, Error>)
    ensures r.Err? ==> r.error != NoHosts
  {
    LoadTokens(Tokens(value), fqdn, lookup)
  }

  /** The rest of `json_loads` once the tokens are known. Every token is
      read as a URL before any name is resolved; the first failure of
      either pass is the error. A scalar for one host, a list for more;
      `raise EnvironmentError` only for no tokens, which cannot happen. */
  function LoadTokens(tokens: seq<string>, fqdn: string -> string, lookup: string -> Option<string>): (r: Result<Loaded, Error>)
    ensures r.Ok? ==> (r.value.One? <==> |tokens| == 1) && (r.value.Many? ==> |r.value.hosts| > 1)
    ensures r == Err(NoHosts) <==> tokens == []
  {
    match MapAll(tokens, ParseUrl)
    case Err(e) =>
      assert tokens != [];
      Err(e)
    case Ok(urls) =>
      match MapAll(urls, (u: Url) => BuildHost(u, fqdn, lookup))
      case Err(e) =>
        assert tokens != [];
        Err(e)
      case Ok(hosts) =>
        if |hosts| == 1 then Ok(One(hosts[0]))
        else if |hosts| > 1 then Ok(Many(hosts))
        else Err(NoHosts)
  }

  /** Decoding succeeds exactly when every token reads as a URL and every
      URL becomes a `Host`; the hosts then come one per token, in order. */
  lemma LoadTokensHosts(tokens: seq<string>, fqdn: string -> string, lookup: string -> Option<string>)
    ensures var r := LoadTokens(tokens, fqdn, lookup);
      r.Ok? <==> |tokens| >= 1 && forall k :: 0 <= k < |tokens| ==>
                   ParseUrl(tokens[k]).Ok? && BuildHost(ParseUrl(tokens[k]).value, fqdn, lookup).Ok?
    ensures var r := LoadTokens(tokens, fqdn, lookup);
      r.Ok? ==> |LoadedHosts(r.value)| == |tokens| &&
                forall k :: 0 <= k < |tokens| ==>
                  LoadedHosts(r.value)[k] == BuildHost(ParseUrl(tokens[k]).value, fqdn, lookup).value
  {
    var build := (u: Url) => BuildHost(u, fqdn, lookup);
    MapAllThen(tokens, ParseUrl, build);
  }

  /** On success there is one host per separator plus one; a scalar
      exactly when the value holds no separator. */
  lemma JsonLoadsShape(value: string, fqdn: string -> string, lookup: string -> Option<string>)
    ensures var r := JsonLoads(value, fqdn, lookup);
      r.Ok? ==> |LoadedHosts(r.value)| == Count(value, Separator) + 1 &&
                (r.value.One? <==> Count(value, Separator) == 0)
  {
    TokensShape(value);
    LoadTokensHosts(Tokens(value), fqdn, lookup);
  }

  /** All tokens are read as URLs before any DNS call, so a malformed token
      anywhere wins over a resolution failure. */
  lemma LoadTokensUrlErrorFirst(tokens: seq<string>, fqdn: string -> string, lookup: string -> Option<string>, k: int)
    requires 0 <= k < |tokens| && ParseUrl(tokens[k]).Err?
    ensures LoadTokens(tokens, fqdn, lookup).Err? && LoadTokens(tokens, fqdn, lookup).error.BadUrl?
  {
    var urls := MapAll(tokens, ParseUrl);
    assert urls.Err?;
    var j :| 0 <= j < |tokens| && ParseUrl(tokens[j]) == Err(urls.error);
  }

  /** A failed decode reports the error of the first failing token: of the
      URL pass when some token does not read as a URL, and otherwise of the
      host pass. */
  lemma LoadTokensError(tokens: seq<string>, fqdn: string -> string, lookup: string -> Option<string>)
    requires tokens != []
    ensures var r := LoadTokens(tokens, fqdn, lookup);
      r.Err? ==>
        (exists k :: 0 <= k < |tokens| && ParseUrl(tokens[k]) == Err(r.error) &&
                     forall j :: 0 <= j < k ==> ParseUrl(tokens[j]).Ok?) ||
        ((forall j :: 0 <= j < |tokens| ==> ParseUrl(tokens[j]).Ok?) &&
         exists k :: 0 <= k < |tokens| && BuildHost(ParseUrl(tokens[k]).value, fqdn, lookup) == Err(r.error) &&
                     forall j :: 0 <= j < k ==> BuildHost(ParseUrl(tokens[j]).value, fqdn, lookup).Ok?)
  {
    var urls := MapAll(tokens, ParseUrl);
    if urls.Ok? {
      var build := (u: Url) => BuildHost(u, fqdn, lookup);
      var hosts := MapAll(urls.value, build);
      if hosts.Err? {
        var k :| 0 <= k < |urls.value| && build(urls.value[k]) == Err(hosts.error) &&
                 forall j :: 0 <= j < k ==> build(urls.value[j]).Ok?;
        assert BuildHost(ParseUrl(tokens[k]).value, fqdn, lookup) == Err(hosts.error);
      }
    }
  }

  // ---------------------------------------------------------------------
  // root_validator

  /** The validated fields handed to the root validator; a field that
      failed its own validation is absent. */
  datatype Values = Values(myself: Option<Host>, partners: Option<seq<Host>>)

  /** `[i for i in partners if not i == myself]`. A host never equals an
      absent `myself`. */
  function ExcludeSelf(partners: seq<Host>, myself: Option<Host>): (r: seq<Host>)
    ensures |r| <= |partners|
    ensures forall k :: 0 <= k < |r| ==> Some(r[k]) != myself
    ensures forall k :: 0 <= k < |r| ==> r[k] in partners
  {
    if partners == [] then []
    else (if Some(partners[0]) == myself then [] else [partners[0]]) + ExcludeSelf(partners[1..], myself)
  }

  /** How often `myself` occurs in `partners`. */
  function Occurrences(partners: seq<Host>, myself: Option<Host>): nat
  {
    if myself.None? then 0 else multiset(partners)[myself.value]
  }

  /** `s` keeps some of the elements of `t`, in their order. */
  predicate IsSubsequence(s: seq<Host>, t: seq<Host>)
    decreases |t|
  {
    if s == [] then true
    else if t == [] then false
    else if s[0] == t[0] then IsSubsequence(s[1..], t[1..])
    else IsSubsequence(s, t[1..])
  }

  /** Every other host keeps its multiplicity; `myself` keeps none. */
  lemma {:induction false} ExcludeSelfContents(partners: seq<Host>, myself: Option<Host>, h: Host)
    ensures multiset(ExcludeSelf(partners, myself))[h] == if Some(h) == myself then 0 else multiset(partners)[h]
    decreases |partners|
  {
    if partners != [] {
      var tail := partners[1..];
      var head := if Some(partners[0]) == myself then [] else [partners[0]];
      ExcludeSelfContents(tail, myself, h);
      assert partners == [partners[0]] + tail;
      assert multiset(ExcludeSelf(partners, myself)) == multiset(head) + multiset(ExcludeSelf(tail, myself));
    }
  }

  /** The survivors are the input minus every occurrence of `myself`. */
  lemma {:induction false} ExcludeSelfLength(partners: seq<Host>, myself: Option<Host>)
    ensures |ExcludeSelf(partners, myself)| == |partners| - Occurrences(partners, myself)
    decreases |partners|
  {
    if partners != [] {
      ExcludeSelfLength(partners[1..], myself);
      assert partners == [partners[0]] + partners[1..];
    }
  }

  /** The survivors appear in their original relative order. */
  lemma {:induction false} ExcludeSelfOrder(partners: seq<Host>, myself: Option<Host>)
    ensures IsSubsequence(ExcludeSelf(partners, myself), partners)
    decreases |partners|
  {
    if partners != [] {
      var rest := ExcludeSelf(partners[1..], myself);
      ExcludeSelfOrder(partners[1..], myself);
      if Some(partners[0]) != myself {
        assert ([partners[0]] + rest)[1..] == rest;
      } else {
        assert [] + rest == rest;
        SubsequenceDropHead(rest, partners);
      }
    }
  }

  lemma SubsequenceDropHead(s: seq<Host>, t: seq<Host>)
    requires t != [] && IsSubsequence(s, t[1..])
    ensures IsSubsequence(s, t)
    decreases |s| + |t|
  {
    if s != [] && s[0] == t[0] {
      SubsequenceTail(s, t[1..]);
    }
  }

  lemma SubsequenceTail(s: seq<Host>, u: seq<Host>)
    requires s != [] && IsSubsequence(s, u)
    ensures IsSubsequence(s[1..], u)
    decreases |s| + |u|
  {
    if s[0] == u[0] {
      if s[1..] != [] {
        SubsequenceDropHead(s[1..], u);
      }
    } else {
      SubsequenceTail(s, u[1..]);
      if s[1..] != [] {
        SubsequenceDropHead(s[1..], u);
      }
    }
  }

  /** Without `myself` among the partners nothing is dropped. */
  lemma {:induction false} ExcludeSelfAbsent(partners: seq<Host>, myself: Option<Host>)
    requires myself.None? || myself.value !in partners
    ensures ExcludeSelf(partners, myself) == partners
    decreases |partners|
  {
    if partners != [] {
      assert partners[0] in partners;
      ExcludeSelfAbsent(partners[1..], myself);
      assert [partners[0]] + partners[1..] == partners;
    }
  }

  /** Filtering twice is filtering once. */
  lemma ExcludeSelfIdempotent(partners: seq<Host>, myself: Option<Host>)
    ensures ExcludeSelf(ExcludeSelf(partners, myself), myself) == ExcludeSelf(partners, myself)
  {
    ExcludeSelfAbsent(ExcludeSelf(partners, myself), myself);
  }

  /** `HostsSettings.root_validator`. `assertions` is false when Python
      runs optimised (`-O`), which strips the `assert`: then an empty list
      passes and a missing one fails only when the comprehension tries to
      iterate it. No check follows the filter. */
  function RootValidate(v: Values, assertions: bool): (r: Result<Values, Error>)
    ensures r.Ok? <==> v.partners.Some? && (assertions ==> v.partners.value != [])
    ensures r.Err? ==> r.error == if assertions then EmptyPartners else PartnersNotIterable
    ensures r.Ok? ==> r.value.myself == v.myself && r.value.partners == Some(ExcludeSelf(v.partners.value, v.myself))
  {
    if assertions && (v.partners.None? || v.partners.value == []) then Err(EmptyPartners)
    else if v.partners.None? then Err(PartnersNotIterable)
    else Ok(Values(v.myself, Some(ExcludeSelf(v.partners.value, v.myself))))
  }

  /** A partner list made only of `myself` passes the check and comes out
      empty. */
  lemma {:induction false} OnlySelfPasses(myself: Host, partners: seq<Host>, assertions: bool)
    requires partners != [] && forall k :: 0 <= k < |partners| ==> partners[k] == myself
    ensures RootValidate(Values(Some(myself), Some(partners)), assertions) == Ok(Values(Some(myself), Some([])))
  {
    ExcludeSelfLength(partners, Some(myself));
    assert multiset(partners)[myself] == |partners| by {
      MultisetAllSame(partners, myself);
    }
  }

  lemma {:induction false} MultisetAllSame(s: seq<Host>, h: Host)
    requires forall k :: 0 <= k < |s| ==> s[k] == h
    ensures multiset(s)[h] == |s|
    decreases |s|
  {
    if s != [] {
      MultisetAllSame(s[1..], h);
      assert s == [s[0]] + s[1..];
    }
  }

  /** The mutable `values` dictionary the root validator updates. */
  class ValuesDict {
    var myself: Option<Host>
    var partners: Option<seq<Host>>

    function View(): Values
      reads this
    {
      Values(myself, partners)
    }

    constructor (v: Values)
      ensures View() == v
    {
      myself := v.myself;
      partners := v.partners;
    }

    /** `root_validator` as it runs: the check first, then
        `values.update(partners=...)` in place. A failure leaves the
        dictionary as it was. */
    method RootValidator(assertions: bool) returns (outcome: Outcome<Error>)
      modifies this
      ensures myself == old(myself)
      ensures outcome.Pass? <==> RootValidate(old(View()), assertions).Ok?
      ensures outcome.Pass? ==> View() == RootValidate(old(View()), assertions).value
      ensures outcome.Fail? ==> View() == old(View()) && outcome.error == RootValidate(old(View()), assertions).error
    {
      if assertions && (partners.None? || partners.value == []) {
        return Fail(EmptyPartners);
      }
      if partners.None? {
        return Fail(PartnersNotIterable);
      }
      partners := Some(ExcludeSelf(partners.value, myself));
      return Pass;
    }
  }
}
