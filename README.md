# Raft controller configuration, modelled in Dafny

`patroni.raft.controller.opt-2.py` starts a Patroni Raft controller. Before
that, it reads its cluster membership from two environment variables,
`PATRONI_RAFT_SELF_ADDR` and `PATRONI_RAFT_PARTNER_ADDRS`, and writes both
back in normalised form. This project models that configuration core and
proves what it guarantees:

- **`Host`** (module `Hosts`, file `host.dfy`). A cluster member has a name,
  an IPv4 address and a port.
  - The name must match `^[a-z0-9]+$`.
  - The port must satisfy `1024 < port < 65535`.
  - A validation error lists every field that fails.
  - `env`, `__str__` and `__repr__` all render the member as `ip:port`.
- **IPv4 addresses** (module `IPv4`, file `ipv4.dfy`). This is the strict
  dotted-quad reading and printing that `IPv4Address` does: four parts split
  on ".", each of one to three digits, no leading zero, at most 255.
- **`json_loads`** (module `Settings`, file `settings.dfy`).
  - The raw value is split on the three-character separator `','`.
  - Every piece has its outer apostrophes stripped.
  - Each token is read as `raft://host[:port]`, and every token is read
    before any name is resolved.
  - Each URL becomes a `Host`, using the forward and reverse DNS lookups.
  - The result is a single `Host` for one token and a list for several.
- **`root_validator`** (module `Settings`).
  - It checks that `partners` is present and, unless Python runs with
    `-O`, non-empty.
  - It then replaces `partners`, in place in the `values` dictionary, with
    the partners that differ from `myself`.
  - It is modelled twice: as the function `RootValidate`, and as the method
    `ValuesDict.RootValidator` over a mutable dictionary.
- **Re-export** (module `Export`, file `export.dfy`).
  - The partner string is the `','`-join of every `'env'`.
  - The self string is `myself.env`.
  - Round-trip lemmas show that the decoder reads both back.
- **String and list primitives** (modules `PyStr` and `Wrappers`). These are
  Python's `find`, `split`, `join`, `count`, `strip` and `str(int)`, and a
  list comprehension whose element expression may raise.

DNS is a parameter throughout:
- `fqdn: string -> string` stands for `socket.getfqdn`.
- `lookup: string -> Option<string>` stands for `socket.gethostbyname`.
  `None` means that the call raised.

The shebang runs Python with `-O`, which removes the `assert` in
`root_validator`. The model therefore takes an `assertions` flag and covers
both modes.

Equality of `Host` values is datatype equality over all three fields, as
for pydantic model equality. The filter therefore removes a partner only
when its name, address and port all equal those of `myself`.

## Model

| member | source | states |
|---|---|---|
| Hosts.FieldErrors | patroni.raft.controller.opt-2.py:20-22 | the name field is reported exactly when the name fails its pattern; the port field exactly when the port is missing or out of range; no error exactly when both hold |
| Hosts.MakeHost | patroni.raft.controller.opt-2.py:19-22 | a `Host` is built exactly when the name matches and the port is present and strictly between 1024 and 65535; it then carries the given fields and is valid; otherwise the error names every failing field and only those |
| Hosts.NameTrailingNewline | patroni.raft.controller.opt-2.py:20 | `NameMatches`, the `re.match` of `^[a-z0-9]+$`: a lower-case alphanumeric name passes with or without one final newline, never with two; the empty name and a lone newline never pass |
| Hosts.PortBoundaries | patroni.raft.controller.opt-2.py:22 | `PortInRange`, the `conint(gt=1024, lt=65535)` rule, has both bounds strict: ports 1024 and 65535 are rejected with only the port field failing; 1025 and 65534 are accepted |
| Hosts.NameWithoutNewline | patroni.raft.controller.opt-2.py:20 | for a name without a newline, matching means non-empty with every character in `a-z` or `0-9` |
| Hosts.DottedNameRejected | patroni.raft.controller.opt-2.py:20 | a name holding a dot never matches, so a fully qualified name is rejected |
| Hosts.Env | patroni.raft.controller.opt-2.py:24-26 | `env` is made of digits, dots, a colon and a minus sign only, and holds no apostrophe and no comma |
| Export.EnvParses | patroni.raft.controller.opt-2.py:24-32 | `env` of a valid host is the address text, a colon and the decimal port, and reads back as exactly that URL; `__str__` and `__repr__` equal `env` |
| IPv4.Parse | patroni.raft.controller.opt-2.py:21 | a text is accepted exactly when it splits on "." into four octet texts |
| IPv4.ParseParts | patroni.raft.controller.opt-2.py:21 | four parts are accepted exactly when each is one to three digits, has no leading zero and is at most 255 |
| IPv4.TextSplit | patroni.raft.controller.opt-2.py:26 | `IPv4.Text`, the `str(ip)` of the f-string, is the decimal texts of the four octets separated by dots: it splits on "." into exactly them |
| IPv4.OctetTextIff | patroni.raft.controller.opt-2.py:21 | `OctetText`, the per-octet rule of `IPv4Address`, accepts exactly the decimal texts of the numbers 0 to 255 |
| IPv4.TextChars | patroni.raft.controller.opt-2.py:26 | the printed address holds only digits and dots |
| IPv4.ParseText | patroni.raft.controller.opt-2.py:21 | parsing the printed address gives the address back |
| IPv4.ParseIsCanonical | patroni.raft.controller.opt-2.py:21 | any accepted text is exactly the printed form of the address it yields |
| IPv4.ParseIff | patroni.raft.controller.opt-2.py:21 | a text parses to an address exactly when it is that address's printed form `IPv4.Text` |
| PyStr.Find | patroni.raft.controller.opt-2.py:43 | the result is -1 or an index where the separator occurs |
| PyStr.FindLeftmost | patroni.raft.controller.opt-2.py:43 | the separator occurs nowhere before the result, and the result is -1 exactly when it occurs nowhere |
| PyStr.Split | patroni.raft.controller.opt-2.py:43 | splitting yields at least one piece |
| PyStr.SplitJoin | patroni.raft.controller.opt-2.py:43 | joining the pieces with the separator gives the input back |
| PyStr.SplitClean | patroni.raft.controller.opt-2.py:43 | no piece holds the separator |
| PyStr.SplitCount | patroni.raft.controller.opt-2.py:43 | there is one piece per non-overlapping separator plus one |
| PyStr.StripLeft | patroni.raft.controller.opt-2.py:43 | the result is a suffix of the input, everything removed is the stripped character, and the result does not start with it |
| PyStr.StripRight | patroni.raft.controller.opt-2.py:43 | the result is a prefix of the input, everything removed is the stripped character, and the result does not end with it |
| PyStr.Strip | patroni.raft.controller.opt-2.py:43 | the result is one slice of the input, everything cut off before and after it is the stripped character, and it neither starts nor ends with that character |
| PyStr.JoinEnds | patroni.raft.controller.opt-2.py:130 | `Join`, the `",".join`, of no parts is empty; otherwise it begins with the first part and ends with the last |
| PyStr.StripQuoted | patroni.raft.controller.opt-2.py:43 | one leading apostrophe and any trailing apostrophes around an apostrophe-free text are exactly what is stripped |
| PyStr.DecimalText | patroni.raft.controller.opt-2.py:26 | `str(n)` is non-empty, all digits, without a leading zero, and "0" exactly for zero |
| PyStr.IntText | patroni.raft.controller.opt-2.py:26 | `str(port)` is the decimal text for a non-negative port and otherwise holds only digits and a minus sign |
| PyStr.DecimalRoundTrip | patroni.raft.controller.opt-2.py:26 | reading the decimal text of a number gives the number back |
| PyStr.DecimalCanonical | patroni.raft.controller.opt-2.py:21 | a digit string without a leading zero is the decimal text of its value |
| Wrappers.MapAll | patroni.raft.controller.opt-2.py:44-46 | a comprehension whose element may raise succeeds exactly when every element succeeds, with the results in order; otherwise its error is that of the first failing element |
| Wrappers.MapAllThen | patroni.raft.controller.opt-2.py:43-46 | two comprehensions in a row succeed exactly when every input passes both, with one result per input, in order |
| Settings.Tokens | patroni.raft.controller.opt-2.py:43 | tokenising always yields at least one token |
| Settings.TokensShape | patroni.raft.controller.opt-2.py:43 | there is one token per `','` separator plus one, in input order; each token is its piece with the outer apostrophes stripped, and the pieces rejoin to the input |
| Settings.ParseUrl | patroni.raft.controller.opt-2.py:43 | an accepted URL has a non-empty host without a colon that is a prefix of the token; a rejection names the token |
| Settings.ParseUrlOf | patroni.raft.controller.opt-2.py:43 | `host:port` reads back as that host and port |
| Settings.BuildHost | patroni.raft.controller.opt-2.py:45 | a `Host` is built exactly when the address resolves, the answer parses as IPv4, the reverse name matches and the port is in range; the name comes from the reverse lookup and the address is the resolver's answer; a failed lookup or an unparsable answer gives its own error; once the answer parses, a failure is a validation error naming exactly the failing name and port fields |
| Settings.JsonLoads | patroni.raft.controller.opt-2.py:42-52 | decoding never fails with the "no hosts" error, because splitting always yields a token |
| Settings.LoadTokens | patroni.raft.controller.opt-2.py:44-52 | on success the result is a scalar exactly for one token and a list of more than one otherwise; the "no hosts" error arises exactly for no tokens |
| Settings.LoadTokensHosts | patroni.raft.controller.opt-2.py:43-50 | decoding succeeds exactly when every token reads as a URL and every URL builds a `Host`; the hosts are then those built from the tokens, one each, in order |
| Settings.JsonLoadsShape | patroni.raft.controller.opt-2.py:47-50 | on success there is one host per separator in the value plus one, and a scalar exactly when there is no separator |
| Settings.LoadTokensError | patroni.raft.controller.opt-2.py:43-46 | a failed decode reports the error of the first token that fails: the first malformed token in the URL pass, or, when every token reads as a URL, the first token whose host cannot be built |
| Settings.LoadTokensUrlErrorFirst | patroni.raft.controller.opt-2.py:43-46 | a malformed token anywhere makes decoding fail with a URL error, whatever the DNS answers |
| Settings.ExcludeSelf | patroni.raft.controller.opt-2.py:58-59 | the filtered list is no longer than the input, holds no element equal to `myself`, and holds only input elements |
| Settings.ExcludeSelfContents | patroni.raft.controller.opt-2.py:58-59 | every host other than `myself` keeps its multiplicity; `myself` keeps none |
| Settings.ExcludeSelfLength | patroni.raft.controller.opt-2.py:58-59 | the filtered length is the input length minus the occurrences of `myself` |
| Settings.ExcludeSelfOrder | patroni.raft.controller.opt-2.py:58-59 | the survivors keep their relative order (the result is a subsequence of the input) |
| Settings.ExcludeSelfAbsent | patroni.raft.controller.opt-2.py:58-59 | with `myself` absent or not among the partners, nothing is removed |
| Settings.ExcludeSelfIdempotent | patroni.raft.controller.opt-2.py:58-59 | filtering twice is the same as filtering once |
| Settings.RootValidate | patroni.raft.controller.opt-2.py:54-60 | the check passes exactly when `partners` is present and, with assertions on, non-empty; the error is the failed assertion, or with `-O` the failed iteration of a missing list; on success `myself` is unchanged and `partners` is the filtered list |
| Settings.OnlySelfPasses | patroni.raft.controller.opt-2.py:56-59 | a non-empty partner list made only of `myself` passes and comes out empty |
| Settings.ValuesDict.RootValidator | patroni.raft.controller.opt-2.py:54-60 | the in-place update passes exactly when `RootValidate` does, leaves the dictionary as `RootValidate` describes it, never changes `myself`, and on failure changes nothing |
| Export.EnvList | patroni.raft.controller.opt-2.py:130 | one `env` per partner, none holding an apostrophe or a comma |
| Export.QuoteAll | patroni.raft.controller.opt-2.py:130 | `f"'{e}'"` for every string: one result per input, each the input with one apostrophe added at either end |
| Export.PartnerAddrs | patroni.raft.controller.opt-2.py:130 | the re-exported partner value is empty exactly for no partners, and otherwise starts and ends with an apostrophe; `Export.PartnerAddrsTokens` and `Export.PartnersRoundTrip` state what it decodes to |
| Export.JoinQuoted | patroni.raft.controller.opt-2.py:130 | the comma-join of quoted strings is an opening apostrophe followed by the strings separated by `','` and a closing apostrophe |
| Export.TokensOfQuotedJoin | patroni.raft.controller.opt-2.py:130 | tokenising a comma-join of quoted strings free of apostrophes and commas gives the strings back, in order |
| Export.PartnerAddrsTokens | patroni.raft.controller.opt-2.py:130 | for a non-empty partner list, tokenising the re-exported partner value gives every partner's `env`, in order |
| Export.EmptyPartnerAddrs | patroni.raft.controller.opt-2.py:130 | an empty partner list re-exports as "", which tokenises to one empty token, not to none |
| Export.SelfAddrTokens | patroni.raft.controller.opt-2.py:131 | `SelfAddr`, the re-exported self value `myself.env`, tokenises to exactly its `env`; `Export.SelfRoundTrip` states what it decodes to |
| Export.BuildFromEnv | patroni.raft.controller.opt-2.py:45 | with a resolver that maps an address literal to itself, decoding a valid host's `env` builds a host with the same address and port and the reverse-lookup name |
| Export.PartnersRoundTrip | patroni.raft.controller.opt-2.py:130 | decoding the re-exported partner value succeeds; it is a scalar exactly for one partner; it holds one host per partner, in order, with that partner's address and port |
| Export.SelfRoundTrip | patroni.raft.controller.opt-2.py:131 | decoding the re-exported self value gives one host with the same address and port |
| Export.SingleTokenLoads | patroni.raft.controller.opt-2.py:47-48 | a value with one token that builds a host decodes to that host as a scalar |

## Left out

- DNS: `getfqdn` and `gethostbyname` (line 45) are network I/O. They are the parameters `fqdn` and `lookup`, and nothing is assumed about them except in the round-trip lemmas.
- URL parsing by yarl (line 43) is a foreign library. It is abstracted as a split at the first colon into a non-empty host and an all-digit port. Not modelled:
  - host lowercasing and IDNA encoding;
  - IPv6 brackets, user info, paths, queries and fragments;
  - yarl's own port range check.
  An empty token, or digits after the colon that are not all digits, is a URL error. No colon, or nothing after it, leaves the port unset.
- Settings.ParseUrl: an empty token is rejected in the URL pass (line 43). In the source `URL('raft://')` is accepted with no host, and the failure comes only at `getfqdn(name=None)` in the host pass (line 45). So for an unresolvable token followed by an empty one, the source reports the resolution failure and the model reports `BadUrl("")`.
- pydantic settings machinery is a foreign, reflective library. Not modelled:
  - reading the environment variables and `Field(env=...)`;
  - the conversion of `json_loads` results into the `myself: Host` and `partners: List[Host]` fields. In particular, one partner decodes to a scalar `Host`, and how the list field then treats it is not part of this model. The same goes for a list given to `myself`;
  - the wrapping of errors into a settings error.
- The identity validators at lines 66-72 return their input unchanged and are not modelled.
- Logging, `InterceptHandler`, `customize_logging`, `getTable` and all table output (lines 62-64, 75-139) are presentation and I/O.
- The writes to `os.environ`, the hand-off to `main` and `sys.tracebacklimit` (lines 16, 130-131, 141) are process I/O. Only the two string values computed at lines 130-131 are modelled.
- Export.PartnersRoundTrip: holds only for a non-empty partner list. An empty list re-exports as "", which decodes as one empty token; `Export.EmptyPartnerAddrs` states that case.
- Export.PartnersRoundTrip: gives back each partner's address and port, but its name only as far as the reverse lookup reproduces it. The name is not part of `env`, so decoding always takes it from `fqdn`.
- Hosts.Env: the port is printed with `str(int)` on Python's unbounded integers. A valid port is always positive, so no sign or width question arises.
- Hosts.Str and Hosts.Repr have no contract of their own; `Export.EnvParses` states that both equal `env`.
- `Host` equality compares name, address and port, so the filter at lines 57-59 removes a partner only when all three equal `myself`; duplicate partners are kept; and the partner list is not checked again after filtering, so it may come out empty.
