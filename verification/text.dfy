/** String helpers with the meaning JavaScript gives them in the viewer's script:
    the `\s` class and `String.prototype.trim`, `startsWith`, `includes`,
    and the decimal part of `parseInt`. */
module Text {
  import opened Options

  /** A character matched by `\s` in a JavaScript regular expression; `trim`
      strips the same set from both ends of a string. */
  predicate IsWhitespace(c: char) {
    var n := c as int;
    n == 0x09 || n == 0x0A || n == 0x0B || n == 0x0C || n == 0x0D || n == 0x20
    || n == 0xA0 || n == 0x1680 || (0x2000 <= n <= 0x200A) || n == 0x2028
    || n == 0x2029 || n == 0x202F || n == 0x205F || n == 0x3000 || n == 0xFEFF
  }

  predicate AllWhitespace(s: string) {
    forall i :: 0 <= i < |s| ==> IsWhitespace(s[i])
  }

  /** `s.replace(/\s+/g, '')`: every whitespace character removed. */
  function StripWhitespace(s: string): (r: string)
    ensures forall i :: 0 <= i < |r| ==> !IsWhitespace(r[i])
    ensures forall i :: 0 <= i < |s| && !IsWhitespace(s[i]) ==> s[i] in r
    ensures AllWhitespace(s) <==> r == []
  {
    if s == [] then []
    else if IsWhitespace(s[0]) then StripWhitespace(s[1..])
    else [s[0]] + StripWhitespace(s[1..])
  }

  /** Removing whitespace twice is removing it once. */
  lemma {:induction false} StripWhitespaceIdempotent(s: string)
    ensures StripWhitespace(StripWhitespace(s)) == StripWhitespace(s)
  {
    if s != [] {
      StripWhitespaceIdempotent(s[1..]);
      if !IsWhitespace(s[0]) {
        assert ([s[0]] + StripWhitespace(s[1..]))[1..] == StripWhitespace(s[1..]);
      }
    }
  }

  /** A string without whitespace is left as it is. */
  lemma {:induction false} StripWhitespaceOfClean(s: string)
    requires forall i :: 0 <= i < |s| ==> !IsWhitespace(s[i])
    ensures StripWhitespace(s) == s
  {
    if s != [] {
      StripWhitespaceOfClean(s[1..]);
    }
  }

  /** Stripping distributes over concatenation. */
  lemma {:induction false} StripWhitespaceConcat(a: string, b: string)
    ensures StripWhitespace(a + b) == StripWhitespace(a) + StripWhitespace(b)
  {
    if a == [] {
      assert a + b == b;
    } else {
      assert (a + b)[0] == a[0];
      assert (a + b)[1..] == a[1..] + b;
      StripWhitespaceConcat(a[1..], b);
    }
  }

  /** Number of leading whitespace characters. */
  function LeadingWhitespace(s: string): (n: nat)
    ensures n <= |s|
    ensures AllWhitespace(s[..n])
    ensures n < |s| ==> !IsWhitespace(s[n])
  {
    if s == [] || !IsWhitespace(s[0]) then 0
    else
      var k := LeadingWhitespace(s[1..]);
      assert s[1..][..k] == s[1..k + 1];
      1 + k
  }

  /** Length of `s` once its trailing whitespace is dropped. */
  function WithoutTrailing(s: string): (n: nat)
    ensures n <= |s|
    ensures AllWhitespace(s[n..])
    ensures n > 0 ==> !IsWhitespace(s[n - 1])
  {
    if s == [] || !IsWhitespace(s[|s| - 1]) then |s|
    else
      var k := WithoutTrailing(s[..|s| - 1]);
      assert s[k..] == s[..|s| - 1][k..] + [s[|s| - 1]];
      k
  }

  /** `s.trim()`: the infix left once whitespace is stripped from both ends. */
  function Trim(s: string): (r: string)
    ensures exists a, b :: 0 <= a <= b <= |s| && r == s[a..b]
                           && AllWhitespace(s[..a]) && AllWhitespace(s[b..])
    ensures r != [] ==> !IsWhitespace(r[0]) && !IsWhitespace(r[|r| - 1])
    ensures r == [] <==> AllWhitespace(s)
  {
    var a := LeadingWhitespace(s);
    var b := WithoutTrailing(s[a..]);
    assert s[a..][..b] == s[a..a + b];
    assert s[a + b..] == s[a..][b..];
    s[a..a + b]
  }

  /** A string with no whitespace at either end is its own trim. */
  lemma TrimClean(s: string)
    requires s != [] ==> !IsWhitespace(s[0]) && !IsWhitespace(s[|s| - 1])
    ensures Trim(s) == s
  {
    if s != [] {
      assert LeadingWhitespace(s) == 0;
      assert s[0..] == s;
      assert WithoutTrailing(s) == |s|;
    }
  }

  /** A run of digits is its own trim. */
  lemma DigitsTrim(s: string)
    requires forall i :: 0 <= i < |s| ==> IsDigit(s[i])
    ensures Trim(s) == s
  {
    if s != [] {
      assert IsDigit(s[0]) && IsDigit(s[|s| - 1]);
      TrimClean(s);
    }
  }

  /** Trimming is idempotent. */
  lemma TrimIdempotent(s: string)
    ensures Trim(Trim(s)) == Trim(s)
  {
    TrimClean(Trim(s));
  }

  /** `s.startsWith(p)`. */
  predicate StartsWith(s: string, p: string) {
    |p| <= |s| && s[..|p|] == p
  }

  /** `s.endsWith(p)`. */
  predicate EndsWith(s: string, p: string) {
    |p| <= |s| && s[|s| - |p|..] == p
  }

  /** `hay.includes(needle)`: case-sensitive substring search; every string
      includes the empty string. */
  predicate Contains(hay: string, needle: string)
    decreases |hay|
  {
    StartsWith(hay, needle) || (hay != [] && Contains(hay[1..], needle))
  }

  /** `needle` occurs in `hay` starting at position `i`. */
  predicate OccursAt(hay: string, needle: string, i: int) {
    0 <= i <= |hay| - |needle| && hay[i..i + |needle|] == needle
  }

  /** The search agrees with the position-based definition of a substring. */
  lemma {:induction false} ContainsIff(hay: string, needle: string)
    ensures Contains(hay, needle) <==> exists i :: OccursAt(hay, needle, i)
  {
    if StartsWith(hay, needle) {
      assert OccursAt(hay, needle, 0);
    } else if hay == [] {
    } else {
      ContainsIff(hay[1..], needle);
      if Contains(hay[1..], needle) {
        var i :| OccursAt(hay[1..], needle, i);
        assert hay[i + 1..i + 1 + |needle|] == hay[1..][i..i + |needle|];
        assert OccursAt(hay, needle, i + 1);
      }
      if exists i :: OccursAt(hay, needle, i) {
        var i :| OccursAt(hay, needle, i);
        assert i != 0;
        assert hay[1..][i - 1..i - 1 + |needle|] == hay[i..i + |needle|];
        assert OccursAt(hay[1..], needle, i - 1);
      }
    }
  }

  predicate IsDigit(c: char) {
    '0' <= c <= '9'
  }

  /** Number of leading decimal digits. */
  function DigitRun(s: string): (n: nat)
    ensures n <= |s|
    ensures forall i :: 0 <= i < n ==> IsDigit(s[i])
    ensures n < |s| ==> !IsDigit(s[n])
  {
    if s == [] || !IsDigit(s[0]) then 0 else 1 + DigitRun(s[1..])
  }

  function DigitValue(c: char): nat
    requires IsDigit(c)
  {
    c as int - '0' as int
  }

  /** Value of a string of decimal digits, most significant first. */
  function DigitsValue(ds: string): nat
    requires forall i :: 0 <= i < |ds| ==> IsDigit(ds[i])
  {
    if ds == [] then 0
    else DigitsValue(ds[..|ds| - 1]) * 10 + DigitValue(ds[|ds| - 1])
  }

  /** `parseInt(s)` on a string without leading whitespace, decimal radix:
      an optional sign, then the longest run of digits; `None` stands for `NaN`
      (no digit after the sign). */
  function ParseInt(s: string): (r: Option<int>)
    ensures r.None? <==> (var body := if s != [] && (s[0] == '+' || s[0] == '-') then s[1..] else s;
                          body == [] || !IsDigit(body[0]))
  {
    var negative := s != [] && s[0] == '-';
    var body := if s != [] && (s[0] == '+' || s[0] == '-') then s[1..] else s;
    var n := DigitRun(body);
    if n == 0 then None
    else
      var v: int := DigitsValue(body[..n]);
      Some(if negative then -v else v)
  }

  /** Decimal rendering of a natural number, without sign or leading zeros. */
  function NatToString(n: nat): (r: string)
    ensures r != [] && forall i :: 0 <= i < |r| ==> IsDigit(r[i])
  {
    var d := ['0' + (n % 10) as char];
    if n < 10 then d else NatToString(n / 10) + d
  }

  /** Digits written by `NatToString` read back to the same number. */
  lemma {:induction false} DigitsValueOfNatToString(n: nat)
    ensures DigitsValue(NatToString(n)) == n
  {
    var r := NatToString(n);
    if n >= 10 {
      DigitsValueOfNatToString(n / 10);
      assert r[..|r| - 1] == NatToString(n / 10);
    }
  }

  /** `parseInt` reads back the decimal rendering of every natural number,
      with or without a `+` sign, and whatever non-digit text follows it. */
  lemma ParseIntOfNatToString(n: nat, rest: string)
    requires rest == [] || !IsDigit(rest[0])
    ensures ParseInt(NatToString(n) + rest) == Some(n)
    ensures ParseInt("+" + NatToString(n) + rest) == Some(n)
  {
    var r := NatToString(n);
    DigitsValueOfNatToString(n);
    ParseIntOfDigits(r, rest);
    ParseIntPlusSign(r + rest);
    assert "+" + r + rest == ['+'] + (r + rest);
  }

  lemma ParseIntOfDigits(ds: string, rest: string)
    requires ds != [] && forall i :: 0 <= i < |ds| ==> IsDigit(ds[i])
    requires rest == [] || !IsDigit(rest[0])
    ensures ParseInt(ds + rest) == Some(DigitsValue(ds))
  {
    var s := ds + rest;
    DigitRunOfDigits(ds, rest);
    assert s[..|ds|] == ds;
    assert s[0] == ds[0];
  }

  /** A `+` sign in front of an unsigned string changes nothing. */
  lemma ParseIntPlusSign(s: string)
    requires s == [] || (s[0] != '+' && s[0] != '-')
    ensures ParseInt(['+'] + s) == ParseInt(s)
  {
    assert (['+'] + s)[1..] == s;
  }

  lemma {:induction false} DigitRunOfDigits(ds: string, rest: string)
    requires forall i :: 0 <= i < |ds| ==> IsDigit(ds[i])
    requires rest == [] || !IsDigit(rest[0])
    ensures DigitRun(ds + rest) == |ds|
  {
    if ds != [] {
      assert (ds + rest)[1..] == ds[1..] + rest;
      DigitRunOfDigits(ds[1..], rest);
    } else {
      assert ds + rest == rest;
    }
  }
}
