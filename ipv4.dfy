/** The part of Python's `ipaddress.IPv4Address` the core uses: parsing a
    dotted-quad string and printing an address back as one. */
module IPv4 {
  import opened Wrappers
  import opened PyStr

  newtype Octet = x: int | 0 <= x < 256

  datatype Address = Address(a: Octet, b: Octet, c: Octet, d: Octet)

  /** `str(address)`: the four octets in decimal, joined with dots. */
  function Text(ip: Address): string
  {
    DecimalText(ip.a as nat) + "." + (DecimalText(ip.b as nat) + "." + (DecimalText(ip.c as nat) + "." + DecimalText(ip.d as nat)))
  }

  /** The text of an address is made of digits and dots only. */
  lemma TextChars(ip: Address)
    ensures forall k :: 0 <= k < |Text(ip)| ==> IsDigit(Text(ip)[k]) || Text(ip)[k] == '.'
  {
  }

  /** One octet as `IPv4Address` accepts it: one to three ASCII digits,
      no leading zero unless the octet is "0", value at most 255. */
  predicate OctetText(t: string)
  {
    1 <= |t| <= 3 && AllDigits(t) && (t == "0" || t[0] != '0') && DigitsValue(t) <= 255
  }

  /** `IPv4Address(address=s)` for a string: `None` stands for the
      `AddressValueError` it raises. The text must split on "." into
      exactly four octets. */
  function Parse(s: string): (r: Option<Address>)
    ensures r.Some? <==> |Split(s, ".")| == 4 && forall k :: 0 <= k < 4 ==> OctetText(Split(s, ".")[k])
  {
    ParseParts(Split(s, "."))
  }

  /** The four octets of a text already split on ".". */
  function ParseParts(parts: seq<string>): (r: Option<Address>)
    ensures r.Some? <==> |parts| == 4 && forall k :: 0 <= k < 4 ==> OctetText(parts[k])
  {
    if |parts| == 4 && forall k :: 0 <= k < 4 ==> OctetText(parts[k]) then
      Some(Address(DigitsValue(parts[0]) as Octet, DigitsValue(parts[1]) as Octet,
                   DigitsValue(parts[2]) as Octet, DigitsValue(parts[3]) as Octet))
    else
      None
  }

  lemma OctetTextOf(x: Octet)
    ensures OctetText(DecimalText(x as nat))
    ensures DigitsValue(DecimalText(x as nat)) == x as nat
  {
    ShortDecimal(x as nat);
    DecimalRoundTrip(x as nat);
    var t := DecimalText(x as nat);
    assert |t| == 1 && t[0] == '0' ==> t == "0";
  }

  lemma OctetTextCanonical(t: string)
    requires OctetText(t)
    ensures t == DecimalText(DigitsValue(t))
  {
    DecimalCanonical(t);
  }

  /** The text of an address holds no "." inside an octet. */
  lemma NoDotInOctet(x: Octet)
    ensures '.' !in DecimalText(x as nat)
  {
    var t := DecimalText(x as nat);
    forall k | 0 <= k < |t| ensures t[k] != '.' {
      assert IsDigit(t[k]);
    }
  }

  /** Four dot-free pieces joined with dots split back into themselves. */
  lemma SplitFour(ta: string, tb: string, tc: string, td: string)
    requires '.' !in ta && '.' !in tb && '.' !in tc && '.' !in td
    ensures Split(ta + "." + (tb + "." + (tc + "." + td)), ".") == [ta, tb, tc, td]
  {
    var s3 := tc + "." + td;
    var s2 := tb + "." + s3;
    SplitTwo(tc, td);
    SplitDotCons(tb, s3);
    SplitDotCons(ta, s2);
  }

  lemma SplitTwo(tc: string, td: string)
    requires '.' !in tc && '.' !in td
    ensures Split(tc + "." + td, ".") == [tc, td]
  {
    SplitCharCons(tc, '.', td);
    SplitCharNone(td, '.');
  }

  lemma SplitDotCons(a: string, b: string)
    requires '.' !in a
    ensures Split(a + "." + b, ".") == [a] + Split(b, ".")
  {
    SplitCharCons(a, '.', b);
  }

  /** Printing then parsing gives the address back. */
  lemma ParseText(ip: Address)
    ensures Parse(Text(ip)) == Some(ip)
  {
    var ta, tb, tc, td := DecimalText(ip.a as nat), DecimalText(ip.b as nat), DecimalText(ip.c as nat), DecimalText(ip.d as nat);
    OctetTextOf(ip.a); OctetTextOf(ip.b); OctetTextOf(ip.c); OctetTextOf(ip.d);
    assert DigitsValue(ta) as Octet == ip.a && DigitsValue(tb) as Octet == ip.b;
    assert DigitsValue(tc) as Octet == ip.c && DigitsValue(td) as Octet == ip.d;
    assert ParseParts([ta, tb, tc, td]) == Some(ip);
    calc {
      Parse(Text(ip));
      ParseParts(Split(Text(ip), "."));
      { TextSplit(ip); }
      ParseParts([ta, tb, tc, td]);
    }
  }

  /** The octet texts are exactly the decimal texts of the numbers 0 to
      255. */
  lemma OctetTextIff(t: string)
    ensures OctetText(t) <==> exists n: nat :: n < 256 && t == DecimalText(n)
  {
    if OctetText(t) {
      OctetTextCanonical(t);
      assert t == DecimalText(DigitsValue(t));
    }
    if n: nat :| n < 256 && t == DecimalText(n) {
      OctetTextOf(n as Octet);
    }
  }

  /** The text of an address splits on "." into its four octets. */
  lemma TextSplit(ip: Address)
    ensures Split(Text(ip), ".") == [DecimalText(ip.a as nat), DecimalText(ip.b as nat), DecimalText(ip.c as nat), DecimalText(ip.d as nat)]
  {
    NoDotInOctet(ip.a); NoDotInOctet(ip.b); NoDotInOctet(ip.c); NoDotInOctet(ip.d);
    SplitFour(DecimalText(ip.a as nat), DecimalText(ip.b as nat), DecimalText(ip.c as nat), DecimalText(ip.d as nat));
  }

  /** Only the canonical dotted quad parses: whatever text `Parse` accepts
      is exactly the text of the address it returns. */
  lemma ParseIsCanonical(s: string)
    requires Parse(s).Some?
    ensures s == Text(Parse(s).value)
  {
    var parts := Split(s, ".");
    var ip := Parse(s).value;
    SplitJoin(s, ".");
    SplitClean(s, ".");
    OctetTextCanonical(parts[0]);
    OctetTextCanonical(parts[1]);
    OctetTextCanonical(parts[2]);
    OctetTextCanonical(parts[3]);
    assert parts[1..][1..][1..] == [parts[3]];
    assert Join(parts[2..], ".") == parts[2] + "." + parts[3];
    assert Join(parts[1..], ".") == parts[1] + "." + Join(parts[2..], ".");
    assert s == parts[0] + "." + Join(parts[1..], ".");
  }

  /** Together: a string parses to `ip` exactly when it is `ip`'s text. */
  lemma ParseIff(s: string, ip: Address)
    ensures Parse(s) == Some(ip) <==> s == Text(ip)
  {
    if Parse(s) == Some(ip) {
      ParseIsCanonical(s);
    }
    if s == Text(ip) {
      ParseText(ip);
    }
  }
}
