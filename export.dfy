/** Re-export of the validated settings: the two strings the process
    writes back for the consensus runtime, and the laws that tie them to
    the decoder. */
module Export {
  import opened Wrappers
  import opened PyStr
  import IPv4
  import opened Hosts
  import opened Settings

  /** The `env` string of every host, in order. */
  function EnvList(hs: seq<Host>): (es: seq<string>)
    ensures |es| == |hs|
    ensures forall k :: 0 <= k < |es| ==> Quote !in es[k] && ',' !in es[k]
  {
    seq(|hs|, k requires 0 <= k < |hs| => Env(hs[k]))
  }

  /** `f"'{e}'"` for every string. */
  function QuoteAll(es: seq<string>): (qs: seq<string>)
    ensures |qs| == |es|
    ensures forall k :: 0 <= k < |qs| ==>
      |qs[k]| == |es[k]| + 2 && qs[k][0] == Quote && qs[k][|qs[k]| - 1] == Quote && qs[k][1..|qs[k]| - 1] == es[k]
  {
    seq(|es|, k requires 0 <= k < |es| => [Quote] + es[k] + [Quote])
  }

  /** The partner value: `",".join([f"'{i.env}'" for i in partners])`. */
  function PartnerAddrs(partners: seq<Host>): (r: string)
    ensures r == "" <==> partners == []
    ensures partners != [] ==> r[0] == Quote && r[|r| - 1] == Quote
  {
    var qs := QuoteAll(EnvList(partners));
    assert partners != [] ==> |qs[0]| >= 2 && |qs[|qs| - 1]| >= 2;
    JoinEnds(qs, ",");
    Join(qs, ",")
  }

  /** The self value: `myself.env`. */
  function SelfAddr(myself: Host): string
  {
    Env(myself)
  }

  /** No apostrophe, no comma. */
  predicate Plain(es: seq<string>)
  {
    forall k :: 0 <= k < |es| ==> Quote !in es[k] && ',' !in es[k]
  }

  /** The quoted join without its first apostrophe:
      `e0','e1', ... ,'en'`. */
  function Tail(es: seq<string>): string
    requires |es| >= 1
    decreases |es|
  {
    if |es| == 1 then es[0] + [Quote] else es[0] + Separator + Tail(es[1..])
  }

  lemma {:induction false} JoinQuoted(es: seq<string>)
    requires |es| >= 1
    ensures Join(QuoteAll(es), ",") == [Quote] + Tail(es)
    decreases |es|
  {
    if |es| > 1 {
      assert QuoteAll(es)[1..] == QuoteAll(es[1..]);
      JoinQuoted(es[1..]);
      assert Join(QuoteAll(es), ",") == QuoteAll(es)[0] + "," + Join(QuoteAll(es[1..]), ",");
    }
  }

  /** The pieces `split("','")` cuts `Tail(es)` into. */
  function TailPieces(es: seq<string>): seq<string>
    requires |es| >= 1
  {
    es[..|es| - 1] + [es[|es| - 1] + [Quote]]
  }

  /** A separator can start only at an apostrophe. */
  lemma NotSeparatorAt(s: string, i: int)
    requires 0 <= i < |s| && s[i] != Quote
    ensures !OccursAt(s, Separator, i)
  {
  }

  /** Nor where the character after the apostrophe is not a comma. */
  lemma NotSeparatorAtNoComma(s: string, i: int)
    requires 0 <= i && i + 1 < |s| && s[i + 1] != ','
    ensures !OccursAt(s, Separator, i)
  {
  }

  /** Nor where fewer than three characters are left. */
  lemma NotSeparatorAtEnd(s: string, i: int)
    requires |s| < i + 3
    ensures !OccursAt(s, Separator, i)
  {
  }

  /** A plain string followed by one apostrophe holds no separator. */
  lemma NoSeparatorClosed(e: string)
    requires Quote !in e
    ensures !Contains(e + [Quote], Separator)
  {
    var s := e + [Quote];
    forall i | 0 <= i <= |s| ensures !OccursAt(s, Separator, i) {
      if i < |e| {
        assert s[i] == e[i];
        NotSeparatorAt(s, i);
      } else {
        NotSeparatorAtEnd(s, i);
      }
    }
  }

  /** Nor does one between two apostrophes, if it has no comma. */
  lemma NoSeparatorQuoted(e: string)
    requires Quote !in e && ',' !in e
    ensures !Contains([Quote] + e + [Quote], Separator)
  {
    var s := [Quote] + e + [Quote];
    forall i | 0 <= i <= |s| ensures !OccursAt(s, Separator, i) {
      if i == 0 {
        if |e| > 0 {
          assert s[1] == e[0];
          NotSeparatorAtNoComma(s, 0);
        } else {
          NotSeparatorAtEnd(s, 0);
        }
      } else if i <= |e| {
        assert s[i] == e[i - 1];
        NotSeparatorAt(s, i);
      } else {
        NotSeparatorAtEnd(s, i);
      }
    }
  }

  /** The first separator after a plain string is the one that follows it. */
  lemma FirstSeparatorAfterPlain(e: string, rest: string)
    requires Quote !in e
    ensures Split(e + Separator + rest, Separator) == [e] + Split(rest, Separator)
  {
    var s := e + Separator + rest;
    forall i | 0 <= i < |e| ensures !OccursAt(s, Separator, i) {
      assert s[i] == e[i];
      NotSeparatorAt(s, i);
    }
    SplitCons(e, Separator, rest);
  }

  /** Likewise after an apostrophe and a plain string with no comma. */
  lemma FirstSeparatorAfterOpen(e: string, rest: string)
    requires Quote !in e && ',' !in e
    ensures Split([Quote] + (e + Separator + rest), Separator) == [[Quote] + e] + Split(rest, Separator)
  {
    var a := [Quote] + e;
    var s := a + Separator + rest;
    assert [Quote] + (e + Separator + rest) == s;
    forall i | 0 <= i < |a| ensures !OccursAt(s, Separator, i) {
      if i == 0 {
        if |e| > 0 {
          assert s[1] == e[0];
        } else {
          assert s[1] == Separator[0];
        }
        NotSeparatorAtNoComma(s, 0);
      } else {
        assert s[i] == e[i - 1];
        NotSeparatorAt(s, i);
      }
    }
    SplitCons(a, Separator, rest);
  }

  lemma SplitClosed(e: string)
    requires Quote !in e
    ensures Split(e + [Quote], Separator) == [e + [Quote]]
  {
    NoSeparatorClosed(e);
    SplitNone(e + [Quote], Separator);
  }

  lemma {:induction false} SplitTail(es: seq<string>)
    requires |es| >= 1 && Plain(es)
    ensures Split(Tail(es), Separator) == TailPieces(es)
    decreases |es|
  {
    var e := es[0];
    assert Quote !in e;
    if |es| == 1 {
      SplitClosed(e);
    } else {
      SplitTail(es[1..]);
      SplitTailStep(es);
    }
  }

  lemma SplitTailStep(es: seq<string>)
    requires |es| > 1 && Plain(es)
    requires Split(Tail(es[1..]), Separator) == TailPieces(es[1..])
    ensures Split(Tail(es), Separator) == TailPieces(es)
  {
    var e := es[0];
    assert Quote !in e;
    FirstSeparatorAfterPlain(e, Tail(es[1..]));
    TailPiecesCons(es);
  }

  lemma TailPiecesCons(es: seq<string>)
    requires |es| > 1
    ensures TailPieces(es) == [es[0]] + TailPieces(es[1..])
  {
    assert es[1..][..|es| - 2] == es[1..|es| - 1];
    assert es[..|es| - 1] == [es[0]] + es[1..|es| - 1];
  }

  /** The pieces `split("','")` cuts the partner value into. */
  function Pieces(es: seq<string>): seq<string>
    requires |es| >= 1
  {
    if |es| == 1 then [[Quote] + es[0] + [Quote]] else [[Quote] + es[0]] + TailPieces(es[1..])
  }

  lemma SplitQuoted(es: seq<string>)
    requires |es| >= 1 && Plain(es)
    ensures Split([Quote] + Tail(es), Separator) == Pieces(es)
  {
    var e := es[0];
    assert Quote !in e && ',' !in e;
    if |es| == 1 {
      SplitQuotedOne(e);
      assert [Quote] + Tail(es) == [Quote] + e + [Quote];
    } else {
      var rest := Tail(es[1..]);
      assert Tail(es) == e + Separator + rest;
      FirstSeparatorAfterOpen(e, rest);
      SplitTail(es[1..]);
    }
  }

  lemma SplitQuotedOne(e: string)
    requires Quote !in e && ',' !in e
    ensures Split([Quote] + e + [Quote], Separator) == [[Quote] + e + [Quote]]
  {
    NoSeparatorQuoted(e);
    SplitNone([Quote] + e + [Quote], Separator);
  }

  /** Stripping the pieces gives the strings back. */
  lemma StripPieces(es: seq<string>, k: int)
    requires |es| >= 1 && Plain(es) && 0 <= k < |es|
    ensures |Pieces(es)| == |es| && Strip(Pieces(es)[k], Quote) == es[k]
  {
    var n := |es|;
    var e := es[k];
    assert Quote !in e;
    if n == 1 {
      assert Pieces(es)[k] == [Quote] + (e + [Quote]);
      StripQuoted(e, Quote, [Quote]);
    } else if k == 0 {
      assert Pieces(es)[k] == [Quote] + (e + []);
      StripQuoted(e, Quote, []);
    } else if k == n - 1 {
      assert Pieces(es)[k] == e + [Quote];
      StripPlain(e, Quote, [Quote]);
    } else {
      assert Pieces(es)[k] == e + [];
      StripPlain(e, Quote, []);
    }
  }

  /** Tokenising a quoted join of plain strings gives the strings back, in
      order. */
  lemma {:induction false} TokensOfQuotedJoin(es: seq<string>)
    requires |es| >= 1 && Plain(es)
    ensures Tokens(Join(QuoteAll(es), ",")) == es
  {
    JoinQuoted(es);
    SplitQuoted(es);
    forall k | 0 <= k < |es| ensures Tokens(Join(QuoteAll(es), ","))[k] == es[k] {
      StripPieces(es, k);
    }
  }

  /** Round trip of the partner value: the tokeniser of the decoder gives
      back every partner's `env`, in order. */
  lemma PartnerAddrsTokens(partners: seq<Host>)
    requires |partners| >= 1
    ensures Tokens(PartnerAddrs(partners)) == EnvList(partners)
  {
    TokensOfQuotedJoin(EnvList(partners));
  }

  /** The one exception: no partners re-export as the empty string, which
      decodes as one empty token rather than as no hosts. */
  lemma EmptyPartnerAddrs()
    ensures PartnerAddrs([]) == ""
    ensures Tokens("") == [""]
  {
    SplitNone("", Separator);
    StripPlain("", Quote, "");
  }

  /** The self value is one token, itself. */
  lemma SelfAddrTokens(myself: Host)
    ensures Tokens(SelfAddr(myself)) == [Env(myself)]
  {
    var s := Env(myself);
    assert !Contains(s, Separator) by {
      forall i | 0 <= i <= |s| ensures !OccursAt(s, Separator, i) {
        if i < |s| {
          NotSeparatorAt(s, i);
        }
      }
    }
    TokensOfUnseparated(s);
    assert Strip(s, Quote) == s by {
      StripPlain(s, Quote, "");
      assert s + "" == s;
    }
  }

  /** `env` reads back as the URL it came from. */
  lemma EnvParses(h: Host)
    requires Valid(h)
    ensures ParseUrl(Env(h)) == Ok(Url(IPv4.Text(h.ip), Some(h.port)))
    ensures Str(h) == Env(h) && Repr(h) == Env(h)
  {
    IPv4.TextChars(h.ip);
    var t := IPv4.Text(h.ip);
    assert ':' !in t by {
      forall k | 0 <= k < |t| ensures t[k] != ':' {
        assert IsDigit(t[k]) || t[k] == '.';
      }
    }
    ParseUrlOf(t, h.port);
  }

  /** A DNS that resolves every dotted quad to itself (as `gethostbyname`
      does for an address literal) and a reverse lookup that yields names
      the `Host` constraint accepts. */
  predicate Resolves(h: Host, fqdn: string -> string, lookup: string -> Option<string>)
  {
    lookup(IPv4.Text(h.ip)) == Some(IPv4.Text(h.ip)) && NameMatches(fqdn(IPv4.Text(h.ip)))
  }

  /** What decoding a re-exported `env` builds: the same address and port,
      with the name the reverse lookup gives. */
  lemma BuildFromEnv(h: Host, fqdn: string -> string, lookup: string -> Option<string>)
    requires Valid(h) && Resolves(h, fqdn, lookup)
    ensures ParseUrl(Env(h)).Ok?
    ensures BuildHost(ParseUrl(Env(h)).value, fqdn, lookup) == Ok(Host(fqdn(IPv4.Text(h.ip)), h.ip, h.port))
  {
    EnvParses(h);
    BuildFromText(h, fqdn, lookup);
  }

  lemma BuildFromText(h: Host, fqdn: string -> string, lookup: string -> Option<string>)
    requires Valid(h) && Resolves(h, fqdn, lookup)
    ensures BuildHost(Url(IPv4.Text(h.ip), Some(h.port)), fqdn, lookup) == Ok(Host(fqdn(IPv4.Text(h.ip)), h.ip, h.port))
  {
    IPv4.ParseText(h.ip);
    var t := IPv4.Text(h.ip);
    assert MakeHost(fqdn(t), h.ip, Some(h.port)) == Ok(Host(fqdn(t), h.ip, h.port));
  }

  /** Decoding the re-exported partner value gives back every partner's
      address and port, in order: a scalar for one partner, a list for more. */
  lemma {:induction false} PartnersRoundTrip(partners: seq<Host>, fqdn: string -> string, lookup: string -> Option<string>)
    requires |partners| >= 1
    requires forall k :: 0 <= k < |partners| ==> Valid(partners[k])
    requires forall k :: 0 <= k < |partners| ==> Resolves(partners[k], fqdn, lookup)
    ensures var r := JsonLoads(PartnerAddrs(partners), fqdn, lookup);
      r.Ok? && (r.value.One? <==> |partners| == 1) &&
      |LoadedHosts(r.value)| == |partners| &&
      forall k :: 0 <= k < |partners| ==>
        LoadedHosts(r.value)[k] == Host(fqdn(IPv4.Text(partners[k].ip)), partners[k].ip, partners[k].port)
  {
    var value := PartnerAddrs(partners);
    PartnerAddrsTokens(partners);
    forall k | 0 <= k < |partners|
      ensures ParseUrl(Tokens(value)[k]).Ok?
      ensures BuildHost(ParseUrl(Tokens(value)[k]).value, fqdn, lookup) == Ok(Host(fqdn(IPv4.Text(partners[k].ip)), partners[k].ip, partners[k].port))
    {
      BuildFromEnv(partners[k], fqdn, lookup);
    }
    LoadTokensHosts(Tokens(value), fqdn, lookup);
  }

  /** Decoding the re-exported self value gives one host with the same
      address and port. */
  lemma SelfRoundTrip(myself: Host, fqdn: string -> string, lookup: string -> Option<string>)
    requires Valid(myself) && Resolves(myself, fqdn, lookup)
    ensures JsonLoads(SelfAddr(myself), fqdn, lookup) == Ok(One(Host(fqdn(IPv4.Text(myself.ip)), myself.ip, myself.port)))
  {
    SelfAddrTokens(myself);
    BuildFromEnv(myself, fqdn, lookup);
    SingleTokenLoads(SelfAddr(myself), Env(myself), fqdn, lookup);
  }

  /** A value that tokenises to one token decodes to the one host that
      token builds. */
  lemma SingleTokenLoads(value: string, token: string, fqdn: string -> string, lookup: string -> Option<string>)
    requires Tokens(value) == [token]
    requires ParseUrl(token).Ok? && BuildHost(ParseUrl(token).value, fqdn, lookup).Ok?
    ensures JsonLoads(value, fqdn, lookup) == Ok(One(BuildHost(ParseUrl(token).value, fqdn, lookup).value))
  {
    LoadTokensHosts(Tokens(value), fqdn, lookup);
  }
}
