/** The parts of Python 2's `str` and `int` behaviour that the core relies on:
    `str(n)`, `'%0Nd' % n`, `int(s)`, `long(s)`, `s.strip()`, `s.lower()`,
    `s.split(c)`, `sep.join(parts)`, `startswith`, `endswith` and `in`.
    Characters are handled as in Python 2 byte strings restricted to ASCII:
    `lower` only folds 'A'..'Z' and whitespace is the six C `isspace` codes. */
module Strings {
  import opened Outcomes

  predicate IsDigit(c: char) { '0' <= c <= '9' }

  /** C `isspace`: space, \t, \n, \v, \f, \r. */
  predicate IsSpace(c: char) { c == ' ' || 9 <= c as int <= 13 }

  predicate AllDigits(s: string) { forall i | 0 <= i < |s| :: IsDigit(s[i]) }

  function DigitValue(c: char): (d: int)
    requires IsDigit(c)
    ensures 0 <= d <= 9
  {
    c as int - '0' as int
  }

  function DigitChar(d: int): (c: char)
    requires 0 <= d <= 9
    ensures IsDigit(c) && DigitValue(c) == d
  {
    ('0' as int + d) as char
  }

  /** The value of a string of decimal digits, most significant first. */
  function DigitsValue(s: string): (v: nat)
    requires AllDigits(s)
  {
    if s == [] then 0 else DigitsValue(s[..|s| - 1]) * 10 + DigitValue(s[|s| - 1])
  }

  /** Python `str(n)` for n >= 0: decimal digits, no leading zero. */
  function NatToString(n: nat): (s: string)
    ensures |s| >= 1 && AllDigits(s)
    ensures n >= 10 ==> s[0] != '0'
  {
    if n < 10 then [DigitChar(n)] else NatToString(n / 10) + [DigitChar(n % 10)]
  }

  /** Python `str(i)` (also `'%1d' % i`, whose field is never wider than the number). */
  function IntToString(i: int): string
  {
    if i < 0 then "-" + NatToString(-i) else NatToString(i)
  }

  function Repeat(c: char, n: nat): (s: string)
    ensures |s| == n && forall k | 0 <= k < n :: s[k] == c
  {
    if n == 0 then [] else [c] + Repeat(c, n - 1)
  }

  /** Left-pads with '0' up to `width` characters; never truncates. */
  function ZeroPad(s: string, width: nat): (r: string)
    ensures |r| == if |s| >= width then |s| else width
  {
    if |s| >= width then s else Repeat('0', width - |s|) + s
  }

  /** Python `'%0<width>d' % i`: the sign counts towards the width, the field
      only ever widens. */
  function FormatInt(i: int, width: nat): string
  {
    if i < 0 then "-" + ZeroPad(NatToString(-i), if width > 0 then width - 1 else 0)
    else ZeroPad(NatToString(i), width)
  }

  function TrimLeft(s: string): (r: string)
    ensures |r| <= |s|
    ensures r == [] || !IsSpace(r[0])
  {
    if |s| > 0 && IsSpace(s[0]) then TrimLeft(s[1..]) else s
  }

  function TrimRight(s: string): (r: string)
    ensures |r| <= |s|
    ensures r == [] || !IsSpace(r[|r| - 1])
  {
    if |s| > 0 && IsSpace(s[|s| - 1]) then TrimRight(s[..|s| - 1]) else s
  }

  /** Python `s.strip()`. */
  function Strip(s: string): string
  {
    TrimLeft(TrimRight(s))
  }

  function LowerChar(c: char): char
  {
    if 'A' <= c <= 'Z' then (c as int + 32) as char else c
  }

  /** Python `s.lower()` on ASCII text. */
  function Lower(s: string): (r: string)
    ensures |r| == |s|
  {
    seq(|s|, k requires 0 <= k < |s| => LowerChar(s[k]))
  }

  function UpperChar(c: char): char
  {
    if 'a' <= c <= 'z' then (c as int - 32) as char else c
  }

  /** Python `s.upper()` on ASCII text. */
  function Upper(s: string): (r: string)
    ensures |r| == |s|
  {
    seq(|s|, k requires 0 <= k < |s| => UpperChar(s[k]))
  }

  /** An optional sign followed by one or more digits and nothing else. */
  function ParseSigned(t: string): (r: Option<int>)
  {
    if |t| > 0 && (t[0] == '-' || t[0] == '+') then
      if |t| > 1 && AllDigits(t[1..]) then
        Some(if t[0] == '-' then -(DigitsValue(t[1..]) as int) else DigitsValue(t[1..]))
      else None
    else if |t| > 0 && AllDigits(t) then Some(DigitsValue(t))
    else None
  }

  /** Python 2 `int(s)` in base 10; None stands for the ValueError it raises.
      Surrounding whitespace is ignored. */
  function ParseInt(s: string): Option<int>
  {
    ParseSigned(Strip(s))
  }

  /** Python 2 `long(s)`: like `int(s)`, but one 'L' or 'l' may follow the digits. */
  function ParseLong(s: string): Option<int>
  {
    var t := Strip(s);
    if |t| > 0 && (t[|t| - 1] == 'L' || t[|t| - 1] == 'l') && ParseSigned(t[..|t| - 1]).Some? then
      ParseSigned(t[..|t| - 1])
    else ParseSigned(t)
  }

  predicate StartsWith(s: string, prefix: string)
  {
    |prefix| <= |s| && s[..|prefix|] == prefix
  }

  predicate EndsWith(s: string, suffix: string)
  {
    |suffix| <= |s| && s[|s| - |suffix|..] == suffix
  }

  /** Python `sub in s` for strings. */
  predicate Contains(s: string, sub: string)
  {
    exists i | 0 <= i <= |s| :: OccursAt(s, sub, i)
  }

  predicate OccursAt(s: string, sub: string, i: int)
  {
    0 <= i && i + |sub| <= |s| && s[i..i + |sub|] == sub
  }

  /** `sub` does not occur where its first character cannot start it. */
  lemma AbsentFirstChar(s: string, sub: string)
    requires |sub| > 0
    requires forall i | 0 <= i && i + |sub| <= |s| :: s[i] != sub[0]
    ensures !Contains(s, sub)
  {
    forall i | 0 <= i <= |s| ensures !OccursAt(s, sub, i) {
      if i + |sub| <= |s| {
        assert s[i..i + |sub|][0] == s[i];
      }
    }
  }

  /** Index of the first occurrence of `c`, Python `s.index(c)`. */
  function IndexOf(s: string, c: char): (r: Option<nat>)
    ensures r.None? <==> c !in s
    ensures r.Some? ==> r.value < |s| && s[r.value] == c && c !in s[..r.value]
  {
    if s == [] then None
    else if s[0] == c then Some(0)
    else match IndexOf(s[1..], c)
      case None => None
      case Some(k) => assert s[1..][..k] == s[1..k + 1]; Some(k + 1)
  }

  /** The first `c` of `x + [c] + y` is the one after `x` when `x` has none. */
  lemma IndexOfAfter(x: string, c: char, y: string)
    requires c !in x
    ensures IndexOf(x + [c] + y, c) == Some(|x|)
  {
    var s := x + [c] + y;
    assert s[|x|] == c && s[..|x|] == x;
  }

  /** A stripped non-empty string has no padding at either end. */
  lemma StrippedEnds(t: string)
    requires t != "" && Strip(t) == t
    ensures !IsSpace(t[0]) && !IsSpace(t[|t| - 1]) && TrimRight(t) == t
  {
    assert |TrimRight(t)| == |t|;
  }

  /** Python `s.split(sep)` for a one-character separator. */
  function Split(s: string, sep: char): (parts: seq<string>)
    ensures |parts| >= 1
    decreases |s|
  {
    match IndexOf(s, sep)
    case None => [s]
    case Some(k) => [s[..k]] + Split(s[k + 1..], sep)
  }

  /** Python `sep.join(parts)`. */
  function Join(parts: seq<string>, sep: string): string
  {
    if parts == [] then ""
    else if |parts| == 1 then parts[0]
    else parts[0] + sep + Join(parts[1..], sep)
  }

  /** Python `s.replace(c, '')` for one character. */
  function RemoveChar(s: string, c: char): (r: string)
    ensures c !in r
  {
    if s == [] then [] else (if s[0] == c then [] else [s[0]]) + RemoveChar(s[1..], c)
  }

  /** Removing a character that does not occur changes nothing. */
  lemma {:induction false} RemoveAbsentChar(s: string, c: char)
    requires c !in s
    ensures RemoveChar(s, c) == s
  {
    if s != [] {
      assert c !in s[1..];
      RemoveAbsentChar(s[1..], c);
      assert [s[0]] + s[1..] == s;
    }
  }

  // ---------------------------------------------------------------------
  // Facts about the conversions.

  lemma {:induction false} DigitsValueOfNatToString(n: nat)
    ensures DigitsValue(NatToString(n)) == n
  {
    if n >= 10 {
      var s := NatToString(n);
      assert s[..|s| - 1] == NatToString(n / 10);
      DigitsValueOfNatToString(n / 10);
    }
  }

  lemma {:induction false} DigitsValueOfZeros(k: nat)
    ensures AllDigits(Repeat('0', k)) && DigitsValue(Repeat('0', k)) == 0
  {
    if k > 0 {
      var z := Repeat('0', k);
      assert z[..k - 1] == Repeat('0', k - 1);
      DigitsValueOfZeros(k - 1);
    }
  }

  /** Leading zeros do not change the value of a digit string. */
  lemma {:induction false} DigitsValueLeadingZeros(k: nat, s: string)
    requires AllDigits(s)
    ensures AllDigits(Repeat('0', k) + s)
    ensures DigitsValue(Repeat('0', k) + s) == DigitsValue(s)
    decreases |s|
  {
    var z := Repeat('0', k);
    if s == [] {
      assert z + s == z;
      DigitsValueOfZeros(k);
    } else {
      var t := z + s;
      assert t[..|t| - 1] == z + s[..|s| - 1];
      DigitsValueLeadingZeros(k, s[..|s| - 1]);
    }
  }

  /** `int(str(i)) == i`. */
  lemma ParseSignedOfIntToString(i: int)
    ensures ParseSigned(IntToString(i)) == Some(i)
  {
    DigitsValueOfNatToString(if i < 0 then -i else i);
    if i < 0 {
      assert IntToString(i)[1..] == NatToString(-i);
    }
  }

  /** Trimming keeps a suffix, and a prefix, of its argument. */
  lemma {:induction false} TrimLeftSuffix(s: string)
    ensures TrimLeft(s) == s[|s| - |TrimLeft(s)|..]
  {
    if |s| > 0 && IsSpace(s[0]) {
      TrimLeftSuffix(s[1..]);
    }
  }

  lemma {:induction false} TrimRightPrefix(s: string)
    ensures TrimRight(s) == s[..|TrimRight(s)|]
  {
    if |s| > 0 && IsSpace(s[|s| - 1]) {
      TrimRightPrefix(s[..|s| - 1]);
    }
  }

  /** `s.strip().strip() == s.strip()`, and stripping keeps characters of `s` only. */
  lemma StripIdempotent(s: string)
    ensures Strip(Strip(s)) == Strip(s)
    ensures forall c | c in Strip(s) :: c in s
  {
    var x := TrimRight(s);
    var y := TrimLeft(x);
    TrimRightPrefix(s);
    TrimLeftSuffix(x);
    if y != [] {
      assert y[|y| - 1] == x[|x| - 1];
      StripUnpadded(y);
    }
    forall c | c in y ensures c in s {
      var k :| 0 <= k < |y| && y[k] == c;
      assert y[k] == x[|x| - |y| + k] == s[|x| - |y| + k];
    }
  }

  lemma StripUnpadded(s: string)
    requires |s| > 0 && !IsSpace(s[0]) && !IsSpace(s[|s| - 1])
    ensures Strip(s) == s
  {
  }

  /** `int(str(i)) == i` and `int(str(i) + '\r') == i`: trailing whitespace,
      such as the frame terminator, is ignored. */
  lemma ParseIntOfIntToString(i: int, trail: string)
    requires forall k | 0 <= k < |trail| :: IsSpace(trail[k])
    ensures ParseInt(IntToString(i) + trail) == Some(i)
  {
    var s := IntToString(i);
    TrimRightDropsSpaces(s, trail);
    StripUnpadded(s);
    ParseSignedOfIntToString(i);
  }

  lemma {:induction false} TrimRightDropsSpaces(s: string, trail: string)
    requires forall k | 0 <= k < |trail| :: IsSpace(trail[k])
    requires |s| > 0 && !IsSpace(s[|s| - 1])
    ensures TrimRight(s + trail) == s
    decreases |trail|
  {
    if trail == [] {
      assert s + trail == s;
    } else {
      var t := s + trail;
      assert t[..|t| - 1] == s + trail[..|trail| - 1];
      TrimRightDropsSpaces(s, trail[..|trail| - 1]);
    }
  }

  /** `str` is injective on integers. */
  lemma IntToStringInjective(i: int, j: int)
    requires IntToString(i) == IntToString(j)
    ensures i == j
  {
    ParseSignedOfIntToString(i);
    ParseSignedOfIntToString(j);
  }

  /** `'%0<w>d' % n` for 0 <= n < 10^w is exactly w digits whose value is n. */
  lemma FormatIntFixedWidth(n: int, width: nat)
    requires 0 <= n && |NatToString(n)| <= width
    ensures |FormatInt(n, width)| == width && AllDigits(FormatInt(n, width))
    ensures DigitsValue(FormatInt(n, width)) == n
  {
    DigitsValueOfNatToString(n);
    PaddedDigits(NatToString(n), width);
  }

  lemma PaddedDigits(s: string, width: nat)
    requires AllDigits(s) && |s| <= width
    ensures |ZeroPad(s, width)| == width && AllDigits(ZeroPad(s, width))
    ensures DigitsValue(ZeroPad(s, width)) == DigitsValue(s)
  {
    if |s| < width {
      DigitsValueLeadingZeros(width - |s|, s);
    }
  }

  lemma {:induction false} NatToStringLength(n: nat, width: nat, bound: nat)
    requires bound == Pow10(width) && n < bound && width >= 1
    ensures |NatToString(n)| <= width
    decreases width
  {
    if n >= 10 {
      assert width != 1 by { assert Pow10(1) == 10; }
      NatToStringLength(n / 10, width - 1, Pow10(width - 1));
    }
  }

  function Pow10(k: nat): (p: nat)
    ensures p >= 1
  {
    if k == 0 then 1 else 10 * Pow10(k - 1)
  }
}
