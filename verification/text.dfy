/** The pieces of Python's `str` behaviour that the application relies on:
    `strip()`, `int()` on decimal text, and ASCII lower-casing. */
module Text {
  import opened Results

  /** Python's `str.isspace()`: the characters `strip()` removes. */
  predicate IsSpace(c: char) {
    || c == ' '
    || '\t' <= c <= '\r'
    || '\U{1c}' <= c <= '\U{1f}'
    || c == '\U{85}' || c == '\U{a0}' || c == '\U{1680}'
    || '\U{2000}' <= c <= '\U{200a}'
    || c == '\U{2028}' || c == '\U{2029}' || c == '\U{202f}'
    || c == '\U{205f}' || c == '\U{3000}'
  }

  predicate AllSpace(s: string) {
    forall i | 0 <= i < |s| :: IsSpace(s[i])
  }

  /** Removes leading white space: the result is a suffix of `s` and
      everything dropped was white space. */
  function TrimStart(s: string): (r: string)
    ensures |r| <= |s| && r == s[|s| - |r|..]
    ensures forall i :: 0 <= i < |s| - |r| ==> IsSpace(s[i])
    ensures r != [] ==> !IsSpace(r[0])
  {
    if |s| > 0 && IsSpace(s[0]) then TrimStart(s[1..]) else s
  }

  /** Removes trailing white space: the result is a prefix of `s` and
      everything dropped was white space. */
  function TrimEnd(s: string): (r: string)
    ensures |r| <= |s| && r == s[..|r|]
    ensures forall i :: |r| <= i < |s| ==> IsSpace(s[i])
    ensures r != [] ==> !IsSpace(r[|r| - 1])
  {
    if |s| > 0 && IsSpace(s[|s| - 1]) then TrimEnd(s[..|s| - 1]) else s
  }

  /** Python's `s.strip()`. */
  function Strip(s: string): (r: string)
    ensures |r| <= |s|
    ensures r != [] ==> !IsSpace(r[0]) && !IsSpace(r[|r| - 1])
    ensures r == [] <==> AllSpace(s)
  {
    var t := TrimStart(s);
    var r := TrimEnd(t);
    r
  }

  /** What `strip()` keeps is one slice of `s`, and everything before and
      after it is white space: only the outer white space is removed. */
  lemma StripKeepsMiddle(s: string)
    ensures LeadingSpace(s) + |Strip(s)| <= |s|
    ensures Strip(s) == s[LeadingSpace(s)..LeadingSpace(s) + |Strip(s)|]
    ensures AllSpace(s[..LeadingSpace(s)]) && AllSpace(s[LeadingSpace(s) + |Strip(s)|..])
  {
    var t := TrimStart(s);
    var r := TrimEnd(t);
    var i := LeadingSpace(s);
    TrimStartDropsSpace(s);
    TrimEndDropsSpace(t);
    assert t == s[i..];
    assert s[i + |r|..] == t[|r|..];
    assert r == s[i..i + |r|];
  }

  /** How many characters `strip()` removes at the front. */
  function LeadingSpace(s: string): nat {
    |s| - |TrimStart(s)|
  }

  lemma TrimStartDropsSpace(s: string)
    ensures AllSpace(s[..|s| - |TrimStart(s)|])
  {
  }

  lemma TrimEndDropsSpace(s: string)
    ensures AllSpace(s[|TrimEnd(s)|..])
  {
    var n := |TrimEnd(s)|;
    forall m | 0 <= m < |s| - n ensures IsSpace(s[n..][m]) {
      assert s[n..][m] == s[n + m];
    }
  }

  /** A string with no white space at either end is its own strip. */
  lemma StripKeepsTrimmed(s: string)
    requires s != [] ==> !IsSpace(s[0]) && !IsSpace(s[|s| - 1])
    ensures Strip(s) == s
  {
    if s != [] {
      assert TrimStart(s) == s;
      assert TrimEnd(s) == s;
    }
  }

  /** Stripping twice is stripping once. */
  lemma StripIdempotent(s: string)
    ensures Strip(Strip(s)) == Strip(s)
  {
    var r := Strip(s);
    if r != [] {
      assert TrimStart(r) == r;
      assert TrimEnd(r) == r;
    }
  }

  predicate IsDigit(c: char) {
    '0' <= c <= '9'
  }

  predicate AllDigits(s: string) {
    forall i | 0 <= i < |s| :: IsDigit(s[i])
  }

  function DigitValue(c: char): nat
    requires IsDigit(c)
  {
    c as int - '0' as int
  }

  /** The value of a string of decimal digits, most significant first. */
  function DigitsValue(ds: string): nat
    requires AllDigits(ds)
  {
    if ds == [] then 0 else 10 * DigitsValue(ds[..|ds| - 1]) + DigitValue(ds[|ds| - 1])
  }

  /** Python's `int(s)` on base-10 text: white space around the number is
      ignored, one optional sign, then at least one digit. `None` stands for
      the `ValueError` Python raises. */
  function ParseInt(s: string): (r: Option<int>)
    ensures r.Some? ==> Strip(s) != []
    ensures r.Some? <==> SignedDecimal(Strip(s))
  {
    ParseSigned(Strip(s))
  }

  /** Text `int()` accepts once stripped: digits, or a sign followed by
      digits. */
  predicate SignedDecimal(t: string) {
    || (t != [] && AllDigits(t))
    || (|t| > 1 && (t[0] == '+' || t[0] == '-') && AllDigits(t[1..]))
  }

  /** The number in a stripped text: one optional sign, then at least one
      digit; everything after the first character is a digit, and only a
      leading '-' gives a negative number. */
  function ParseSigned(t: string): (r: Option<int>)
    ensures r.Some? ==> t != [] && forall i :: 0 < i < |t| ==> IsDigit(t[i])
    ensures r.Some? && r.value < 0 ==> t[0] == '-'
    ensures r.Some? && !IsDigit(t[0]) ==> |t| > 1
    ensures r.Some? <==> SignedDecimal(t)
  {
    if |t| > 0 && (t[0] == '+' || t[0] == '-') then
      var ds := t[1..];
      if ds != [] && AllDigits(ds) then
        var magnitude: int := DigitsValue(ds);
        Some(if t[0] == '-' then -magnitude else magnitude)
      else None
    else if t != [] && AllDigits(t) then Some(DigitsValue(t))
    else None
  }

  /** `int()` strips its argument itself, so stripping first changes nothing. */
  lemma ParseIntIgnoresStrip(s: string)
    ensures ParseInt(Strip(s)) == ParseInt(s)
  {
    StripIdempotent(s);
  }

  /** A leading zero does not change the value of a digit string. */
  lemma {:induction false} LeadingZeroValue(ds: string)
    requires AllDigits(ds)
    ensures AllDigits("0" + ds) && DigitsValue("0" + ds) == DigitsValue(ds)
    decreases |ds|
  {
    var z := "0" + ds;
    assert forall i | 0 <= i < |z| :: IsDigit(z[i]);
    if ds != [] {
      var front := ds[..|ds| - 1];
      assert z[..|z| - 1] == "0" + front;
      LeadingZeroValue(front);
    }
  }

  /** `int("+7") == int("7")`: a plus sign changes nothing. */
  lemma PlusSignIgnored(ds: string)
    requires ds != [] && AllDigits(ds)
    ensures ParseSigned("+" + ds) == ParseSigned(ds)
  {
    assert ("+" + ds)[1..] == ds;
  }

  /** `int("-7") == -int("7")`: a minus sign negates. */
  lemma MinusSignNegates(ds: string)
    requires ds != [] && AllDigits(ds)
    ensures ParseSigned(ds).Some?
    ensures ParseSigned("-" + ds) == Some(-ParseSigned(ds).value)
  {
    assert ("-" + ds)[1..] == ds;
  }

  /** `int("007") == int("7")`: leading zeros are accepted and change
      nothing. */
  lemma LeadingZeroIgnored(ds: string)
    requires ds != [] && AllDigits(ds)
    ensures ParseSigned("0" + ds) == ParseSigned(ds)
  {
    LeadingZeroValue(ds);
  }

  function DigitChar(d: nat): (c: char)
    requires d < 10
    ensures IsDigit(c) && DigitValue(c) == d
  {
    ('0' as int + d) as char
  }

  /** The decimal text of a natural number: no sign, no leading zero. */
  function NatToDecimal(n: nat): (ds: string)
    ensures ds != [] && AllDigits(ds)
    ensures DigitsValue(ds) == n
    decreases n
  {
    if n < 10 then [DigitChar(n)]
    else
      var prefix := NatToDecimal(n / 10);
      var ds := prefix + [DigitChar(n % 10)];
      assert ds[..|ds| - 1] == prefix;
      ds
  }

  /** Python's `str(n)` for an integer. */
  function IntToDecimal(n: int): string {
    if n < 0 then "-" + NatToDecimal(-n) else NatToDecimal(n)
  }

  /** `int(str(n)) == n`: parsing inverts rendering. */
  lemma ParseIntRoundTrip(n: int)
    ensures ParseInt(IntToDecimal(n)) == Some(n)
  {
    if n < 0 {
      NegativeRoundTrip(n);
    } else {
      NaturalRoundTrip(n);
    }
  }

  lemma NaturalRoundTrip(n: nat)
    ensures ParseInt(NatToDecimal(n)) == Some(n)
  {
    var ds := NatToDecimal(n);
    assert IsDigit(ds[0]) && IsDigit(ds[|ds| - 1]);
    StripKeepsTrimmed(ds);
  }

  lemma NegativeRoundTrip(n: int)
    requires n < 0
    ensures ParseInt("-" + NatToDecimal(-n)) == Some(n)
  {
    var ds := NatToDecimal(-n);
    var s := "-" + ds;
    assert s[0] == '-' && s[|s| - 1] == ds[|ds| - 1] && IsDigit(ds[|ds| - 1]);
    StripKeepsTrimmed(s);
    assert s[1..] == ds;
  }

  /** The position of the last `c` in `s`: Python's `rsplit(c, 1)` splits
      there. */
  function LastIndex(s: string, c: char): (r: Option<nat>)
    ensures r.None? <==> c !in s
    ensures r.Some? ==> r.value < |s| && s[r.value] == c && c !in s[r.value + 1..]
  {
    if s == [] then None
    else if s[|s| - 1] == c then Some(|s| - 1)
    else
      var r := LastIndex(s[..|s| - 1], c);
      assert s == s[..|s| - 1] + [s[|s| - 1]];
      if r.Some? then
        assert s[r.value + 1..] == s[..|s| - 1][r.value + 1..] + [s[|s| - 1]];
        r
      else r
  }

  function LowerChar(c: char): char {
    if 'A' <= c <= 'Z' then (c as int + 32) as char else c
  }

  /** `s.lower()` on the ASCII letters; other characters are kept. */
  function Lower(s: string): (r: string)
    ensures |r| == |s|
    ensures forall i :: 0 <= i < |s| ==> r[i] == LowerChar(s[i])
  {
    seq(|s|, i requires 0 <= i < |s| => LowerChar(s[i]))
  }

  /** Lower-casing keeps white space, non-space and '@' as they are, and is
      idempotent on a character. */
  lemma LowerCharKeeps(c: char)
    ensures IsSpace(LowerChar(c)) <==> IsSpace(c)
    ensures LowerChar(c) == '@' <==> c == '@'
    ensures LowerChar(LowerChar(c)) == LowerChar(c)
  {
  }

  /** Lower-casing twice is lower-casing once. */
  lemma LowerIdempotent(s: string)
    ensures Lower(Lower(s)) == Lower(s)
  {
  }
}
