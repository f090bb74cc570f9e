/** The parts of Python's `str` that the configuration core relies on:
    `find`, `split`, `join`, `count`, `strip` with one character, `str(int)`
    and `int(s, 10)` on decimal digits. */
module PyStr {

  /** `sep` occurs in `s` starting at index `i`. */
  predicate OccursAt(s: string, sep: string, i: int)
  {
    0 <= i && i + |sep| <= |s| && s[i..i + |sep|] == sep
  }

  predicate Contains(s: string, sep: string)
  {
    exists i :: 0 <= i <= |s| && OccursAt(s, sep, i)
  }

  /** `s.find(sep)`: the first index where `sep` starts, or -1. */
  function Find(s: string, sep: string): (k: int)
    requires |sep| > 0
    ensures -1 <= k && (k >= 0 ==> OccursAt(s, sep, k))
    decreases |s|
  {
    if |s| < |sep| then
      -1
    else if s[..|sep|] == sep then
      0
    else
      var r := Find(s[1..], sep);
      if r < 0 then -1
      else
        assert s[1..][r..r + |sep|] == s[r + 1..r + 1 + |sep|];
        r + 1
  }

  /** Occurring at `i >= 1` in `s` is occurring at `i - 1` in `s[1..]`. */
  lemma OccursAtTail(s: string, sep: string, i: int)
    requires 1 <= i && |s| >= 1
    ensures OccursAt(s, sep, i) <==> OccursAt(s[1..], sep, i - 1)
  {
    if i + |sep| <= |s| {
      assert s[1..][i - 1..i - 1 + |sep|] == s[i..i + |sep|];
    }
  }

  /** `Find` gives the leftmost occurrence, and -1 exactly when there is
      none. */
  lemma {:induction false} FindLeftmost(s: string, sep: string)
    requires |sep| > 0
    ensures forall i :: 0 <= i < Find(s, sep) ==> !OccursAt(s, sep, i)
    ensures Find(s, sep) == -1 <==> !Contains(s, sep)
    decreases |s|
  {
    if |s| >= |sep| && s[..|sep|] != sep {
      FindLeftmost(s[1..], sep);
      forall i | 1 <= i ensures OccursAt(s, sep, i) <==> OccursAt(s[1..], sep, i - 1) {
        OccursAtTail(s, sep, i);
      }
      if Find(s[1..], sep) >= 0 {
        assert OccursAt(s, sep, Find(s, sep));
      } else {
        assert !OccursAt(s, sep, 0);
      }
    } else if |s| >= |sep| {
      assert OccursAt(s, sep, 0);
    }
  }

  /** `sep.join(parts)`. */
  function Join(parts: seq<string>, sep: string): string
  {
    if |parts| == 0 then ""
    else if |parts| == 1 then parts[0]
    else parts[0] + sep + Join(parts[1..], sep)
  }

  /** A join of no parts is empty; otherwise it begins with the first part
      and ends with the last. */
  lemma {:induction false} JoinEnds(parts: seq<string>, sep: string)
    ensures parts == [] ==> Join(parts, sep) == ""
    ensures |parts| >= 1 ==> parts[0] <= Join(parts, sep)
    ensures |parts| >= 1 ==> |parts[|parts| - 1]| <= |Join(parts, sep)| &&
                             Join(parts, sep)[|Join(parts, sep)| - |parts[|parts| - 1]|..] == parts[|parts| - 1]
    decreases |parts|
  {
    if |parts| > 1 {
      var rest := Join(parts[1..], sep);
      JoinEnds(parts[1..], sep);
      var last := parts[|parts| - 1];
      assert parts[1..][|parts| - 2] == last;
      var r := parts[0] + sep + rest;
      assert r[|r| - |last|..] == rest[|rest| - |last|..];
    }
  }

  /** `s.split(sep)` for a non-empty separator: cut at each leftmost
      occurrence, left to right. */
  function Split(s: string, sep: string): (parts: seq<string>)
    requires |sep| > 0
    ensures |parts| >= 1
    decreases |s|
  {
    var k := Find(s, sep);
    if k < 0 then [s] else [s[..k]] + Split(s[k + |sep|..], sep)
  }

  /** One step of `Split` at the leftmost separator. */
  lemma SplitStep(s: string, sep: string)
    requires |sep| > 0 && Find(s, sep) >= 0
    ensures Split(s, sep) == [s[..Find(s, sep)]] + Split(s[Find(s, sep) + |sep|..], sep)
  {
  }

  /** Joining the pieces with the separator gives `s` back. */
  lemma {:induction false} SplitJoin(s: string, sep: string)
    requires |sep| > 0
    ensures Join(Split(s, sep), sep) == s
    decreases |s|
  {
    var k := Find(s, sep);
    if k >= 0 {
      var head, tail := s[..k], s[k + |sep|..];
      var rest := Split(tail, sep);
      SplitJoin(tail, sep);
      SplitStep(s, sep);
      FindParts(s, sep);
      assert ([head] + rest)[1..] == rest;
    }
  }

  /** `s` is what comes before its leftmost separator, the separator, and
      what comes after. */
  lemma FindParts(s: string, sep: string)
    requires |sep| > 0 && Find(s, sep) >= 0
    ensures s == s[..Find(s, sep)] + sep + s[Find(s, sep) + |sep|..]
  {
    var k := Find(s, sep);
    assert s[k..k + |sep|] == sep;
    assert s == s[..k] + s[k..k + |sep|] + s[k + |sep|..];
  }

  /** What comes before the leftmost separator holds no separator. */
  lemma HeadClean(s: string, sep: string)
    requires |sep| > 0 && Find(s, sep) >= 0
    ensures !Contains(s[..Find(s, sep)], sep)
  {
    var head := s[..Find(s, sep)];
    FindLeftmost(s, sep);
    forall i | 0 <= i <= |head| && OccursAt(head, sep, i) ensures false {
      assert s[i..i + |sep|] == head[i..i + |sep|];
      assert OccursAt(s, sep, i);
    }
  }

  /** No piece of a split holds the separator. */
  lemma {:induction false} SplitClean(s: string, sep: string)
    requires |sep| > 0
    ensures forall j :: 0 <= j < |Split(s, sep)| ==> !Contains(Split(s, sep)[j], sep)
    decreases |s|
  {
    var k := Find(s, sep);
    FindLeftmost(s, sep);
    if k >= 0 {
      var tail := s[k + |sep|..];
      HeadClean(s, sep);
      SplitClean(tail, sep);
      SplitStep(s, sep);
    }
  }

  /** `s.count(sep)`: the number of non-overlapping occurrences, scanned
      from the left. */
  function Count(s: string, sep: string): nat
    requires |sep| > 0
    decreases |s|
  {
    var k := Find(s, sep);
    if k < 0 then 0 else 1 + Count(s[k + |sep|..], sep)
  }

  /** Splitting yields exactly one more piece than there are separators. */
  lemma {:induction false} SplitCount(s: string, sep: string)
    requires |sep| > 0
    ensures |Split(s, sep)| == Count(s, sep) + 1
    decreases |s|
  {
    var k := Find(s, sep);
    if k >= 0 {
      SplitCount(s[k + |sep|..], sep);
      SplitStep(s, sep);
    }
  }

  /** When the leftmost separator of `a + sep + b` is the one after `a`,
      splitting peels `a` off. */
  lemma SplitCons(a: string, sep: string, b: string)
    requires |sep| > 0
    requires forall i :: 0 <= i < |a| ==> !OccursAt(a + sep + b, sep, i)
    ensures Split(a + sep + b, sep) == [a] + Split(b, sep)
  {
    var s := a + sep + b;
    assert s[|a|..|a| + |sep|] == sep;
    assert OccursAt(s, sep, |a|);
    var k := Find(s, sep);
    FindLeftmost(s, sep);
    assert k == |a|;
    assert s[..k] == a;
    assert s[k + |sep|..] == b;
  }

  /** No occurrence at all: a single piece. */
  lemma SplitNone(s: string, sep: string)
    requires |sep| > 0
    requires !Contains(s, sep)
    ensures Split(s, sep) == [s]
  {
  }

  /** With a one-character separator that `a` does not contain. */
  lemma SplitCharCons(a: string, c: char, b: string)
    requires c !in a
    ensures Split(a + [c] + b, [c]) == [a] + Split(b, [c])
  {
    forall i | 0 <= i < |a| ensures !OccursAt(a + [c] + b, [c], i) {
      assert (a + [c] + b)[i] == a[i];
    }
    SplitCons(a, [c], b);
  }

  lemma SplitCharNone(s: string, c: char)
    requires c !in s
    ensures Split(s, [c]) == [s]
  {
    forall i | 0 <= i <= |s| ensures !OccursAt(s, [c], i) {
      if i < |s| {
        assert s[i..i + 1][0] == s[i] != c;
      }
    }
    SplitNone(s, [c]);
  }

  // ---------------------------------------------------------------------
  // strip

  predicate AllAre(s: string, c: char)
  {
    forall k :: 0 <= k < |s| ==> s[k] == c
  }

  /** `s.lstrip(c)`. */
  function StripLeft(s: string, c: char): (r: string)
    ensures |r| <= |s| && r == s[|s| - |r|..]
    ensures AllAre(s[..|s| - |r|], c)
    ensures r == [] || r[0] != c
    decreases |s|
  {
    if s != [] && s[0] == c then
      var r := StripLeft(s[1..], c);
      LeadingTail(s, |s| - |r|, c);
      r
    else
      s
  }

  /** A prefix of `s` that starts with `c` and continues with `c`s only,
      read through `s[1..]`. */
  lemma LeadingTail(s: string, n: nat, c: char)
    requires 0 < n <= |s| && s[0] == c && AllAre(s[1..][..n - 1], c)
    ensures AllAre(s[..n], c) && s[1..][n - 1..] == s[n..]
  {
    forall k | 0 < k < n ensures s[k] == c {
      assert s[1..][..n - 1][k - 1] == s[k];
    }
  }

  /** `s.rstrip(c)`. */
  function StripRight(s: string, c: char): (r: string)
    ensures |r| <= |s| && r == s[..|r|]
    ensures AllAre(s[|r|..], c)
    ensures r == [] || r[|r| - 1] != c
    decreases |s|
  {
    if s != [] && s[|s| - 1] == c then
      var r := StripRight(s[..|s| - 1], c);
      assert s[|r|..] == s[..|s| - 1][|r|..] + [c];
      r
    else
      s
  }

  /** `s.strip(c)`: every leading and every trailing `c` removed. What is
      kept is one slice of `s`, everything cut off on either side is `c`,
      and the result neither starts nor ends with `c`. */
  function Strip(s: string, c: char): (r: string)
    ensures |r| <= |s|
    ensures exists i, j :: 0 <= i <= j <= |s| && r == s[i..j] && AllAre(s[..i], c) && AllAre(s[j..], c)
    ensures r == [] || (r[0] != c && r[|r| - 1] != c)
  {
    var l := StripLeft(s, c);
    var r := StripRight(l, c);
    assert r != [] ==> r[0] == l[0];
    InnerSlice(s, l, r, c);
    r
  }

  /** A prefix `r` of a suffix `l` of `s`, where only `c` lies before `l`
      and after `r`, is a slice of `s` with only `c` around it. */
  lemma InnerSlice(s: string, l: string, r: string, c: char)
    requires |l| <= |s| && l == s[|s| - |l|..] && AllAre(s[..|s| - |l|], c)
    requires |r| <= |l| && r == l[..|r|] && AllAre(l[|r|..], c)
    ensures exists i, j :: 0 <= i <= j <= |s| && r == s[i..j] && AllAre(s[..i], c) && AllAre(s[j..], c)
  {
    var i := |s| - |l|;
    var j := i + |r|;
    assert s[i..j] == r;
    assert s[j..] == l[|r|..];
  }

  /** A string with no `c` in it, followed by any `c`s, loses only those
      `c`s to `rstrip`; preceded by one `c`, it loses only that to
      `lstrip`. */
  lemma StripLeftPlain(e: string, c: char, post: string)
    requires c !in e && AllAre(post, c)
    ensures StripLeft(e + post, c) == (if e == [] then [] else e + post)
    decreases |post|
  {
    if e == [] {
      if post != [] {
        assert post[1..] == e + post[1..];
        StripLeftPlain(e, c, post[1..]);
      }
    } else {
      assert (e + post)[0] == e[0];
      assert e[0] in e;
    }
  }

  lemma StripRightPlain(e: string, c: char, post: string)
    requires c !in e && AllAre(post, c)
    ensures StripRight(e + post, c) == e
    decreases |post|
  {
    if post == [] {
      assert e + post == e;
      if e != [] {
        assert e[|e| - 1] in e;
      }
    } else {
      assert (e + post)[..|e + post| - 1] == e + post[..|post| - 1];
      StripRightPlain(e, c, post[..|post| - 1]);
    }
  }

  /** Stripping `c` off a string with no `c` inside, preceded by one `c`
      and followed by any number of them, leaves the inner string. */
  lemma StripQuoted(e: string, c: char, post: string)
    requires c !in e && AllAre(post, c)
    ensures Strip([c] + (e + post), c) == e
  {
    StripLeftOne(e + post, c);
    StripPlain(e, c, post);
  }

  /** The same without the leading `c`. */
  lemma StripPlain(e: string, c: char, post: string)
    requires c !in e && AllAre(post, c)
    ensures Strip(e + post, c) == e
  {
    StripLeftPlain(e, c, post);
    if e != [] {
      StripRightPlain(e, c, post);
    }
  }

  lemma StripLeftOne(s: string, c: char)
    ensures StripLeft([c] + s, c) == StripLeft(s, c)
  {
    assert ([c] + s)[1..] == s;
  }

  // ---------------------------------------------------------------------
  // decimal text

  predicate IsDigit(ch: char)
  {
    '0' <= ch <= '9'
  }

  predicate AllDigits(s: string)
  {
    forall k :: 0 <= k < |s| ==> IsDigit(s[k])
  }

  function DigitChar(d: nat): (ch: char)
    requires d < 10
    ensures IsDigit(ch)
  {
    ('0' as int + d) as char
  }

  function DigitValue(ch: char): (d: nat)
    requires IsDigit(ch)
    ensures d < 10 && DigitChar(d) == ch
  {
    (ch as int) - ('0' as int)
  }

  /** `str(n)` for a non-negative integer: shortest decimal text, no
      leading zero. */
  function DecimalText(n: nat): (r: string)
    ensures |r| >= 1 && AllDigits(r)
    ensures |r| > 1 ==> r[0] != '0'
    ensures r == "0" <==> n == 0
  {
    if n < 10 then [DigitChar(n)] else DecimalText(n / 10) + [DigitChar(n % 10)]
  }

  /** `str(i)` for any integer. */
  function IntText(i: int): (r: string)
    ensures i >= 0 ==> r == DecimalText(i)
    ensures forall k :: 0 <= k < |r| ==> IsDigit(r[k]) || r[k] == '-'
  {
    if i < 0 then "-" + DecimalText(-i) else DecimalText(i)
  }

  /** `int(s, 10)` on a string of ASCII digits (an empty string reads 0). */
  function DigitsValue(s: string): nat
    requires AllDigits(s)
  {
    if s == [] then 0 else DigitsValue(s[..|s| - 1]) * 10 + DigitValue(s[|s| - 1])
  }

  /** Reading back the text of a number gives the number. */
  lemma {:induction false} DecimalRoundTrip(n: nat)
    ensures DigitsValue(DecimalText(n)) == n
  {
    if n >= 10 {
      var t := DecimalText(n);
      assert t[..|t| - 1] == DecimalText(n / 10);
      DecimalRoundTrip(n / 10);
    }
  }

  /** Digit strings without a superfluous leading zero are exactly the
      texts `DecimalText` produces. */
  lemma {:induction false} DecimalCanonical(t: string)
    requires |t| >= 1 && AllDigits(t)
    requires |t| > 1 ==> t[0] != '0'
    ensures DecimalText(DigitsValue(t)) == t
    decreases |t|
  {
    if |t| > 1 {
      var init := t[..|t| - 1];
      DecimalCanonical(init);
      var v := DigitsValue(init);
      assert v != 0;
      var n := DigitsValue(t);
      assert n / 10 == v && n % 10 == DigitValue(t[|t| - 1]);
      assert t == init + [t[|t| - 1]];
    }
  }

  /** A number below 1000 has at most three digits. */
  lemma ShortDecimal(n: nat)
    requires n < 1000
    ensures |DecimalText(n)| <= 3
  {
    if n >= 10 {
      assert |DecimalText(n / 10)| <= 2 by {
        if n / 10 >= 10 {
          assert |DecimalText(n / 10 / 10)| == 1;
        }
      }
    }
  }
}
