/**
 * Decimal text and JavaScript's `parseInt(s, 10)`: the event form sends its
 * `limit` as text, the handler tests that text for presence and stores the
 * integer `parseInt` reads from it.
 */
module Decimal {
  import opened Rows

  predicate IsDigit(c: char) {
    '0' <= c <= '9'
  }

  function DigitValue(c: char): (d: nat)
    requires IsDigit(c)
    ensures d < 10
  {
    (c as int) - ('0' as int)
  }

  function DigitChar(d: nat): (c: char)
    requires d < 10
    ensures IsDigit(c) && DigitValue(c) == d
  {
    (('0' as int) + d) as char
  }

  /**
   * The white space `parseInt` skips before the number: the ASCII space and
   * control characters tab, line feed, vertical tab, form feed and carriage
   * return, no-break space, the byte order mark and the line and paragraph
   * separators.
   */
  predicate IsSpace(c: char) {
    c == ' ' || c == '\t' || c == '\n' || c == '\U{B}' || c == '\U{C}' || c == '\r'
    || c == '\U{A0}' || c == '\U{FEFF}' || c == '\U{2028}' || c == '\U{2029}'
  }

  predicate AllSpace(p: string) {
    forall i :: 0 <= i < |p| ==> IsSpace(p[i])
  }

  /** `s` without its leading white space. */
  function TrimStart(s: string): (r: string)
    ensures |r| <= |s| && r == s[|s| - |r|..]
    ensures r == [] || !IsSpace(r[0])
    ensures AllSpace(s[..|s| - |r|])
  {
    if s != [] && IsSpace(s[0]) then TrimStart(s[1..]) else s
  }

  /** The longest prefix of `s` made of digits. */
  function DigitPrefix(s: string): (r: string)
    ensures |r| <= |s| && r == s[..|r|]
    ensures forall i :: 0 <= i < |r| ==> IsDigit(r[i])
    ensures |r| == |s| || !IsDigit(s[|r|])
  {
    if s != [] && IsDigit(s[0]) then [s[0]] + DigitPrefix(s[1..]) else []
  }

  /** The number a run of digits denotes, most significant first. */
  function Value(ds: string): nat
    requires forall i :: 0 <= i < |ds| ==> IsDigit(ds[i])
  {
    if ds == [] then 0 else Value(ds[..|ds| - 1]) * 10 + DigitValue(ds[|ds| - 1])
  }

  /** The shortest decimal numeral of `n`. */
  function Numeral(n: nat): (r: string)
    ensures r != [] && forall i :: 0 <= i < |r| ==> IsDigit(r[i])
  {
    if n < 10 then [DigitChar(n)] else Numeral(n / 10) + [DigitChar(n % 10)]
  }

  /**
   * `parseInt(s, 10)`: skip leading white space, read an optional sign, then
   * the longest run of digits; anything after it is ignored. No digits gives
   * NaN, written None.
   */
  function ParseInt(s: string): (r: Option<int>)
    ensures r.None? <==> var u := Unsigned(TrimStart(s)); u == [] || !IsDigit(u[0])
  {
    Signed(TrimStart(s))
  }

  /** The text after an optional leading sign. */
  function Unsigned(t: string): (r: string)
    ensures r == t || (t != [] && (t[0] == '-' || t[0] == '+') && r == t[1..])
  {
    if t != [] && (t[0] == '-' || t[0] == '+') then t[1..] else t
  }

  /** An optional sign followed by the digits of a magnitude. */
  function Signed(t: string): (r: Option<int>)
    ensures r.None? <==> Magnitude(Unsigned(t)).None?
  {
    if t != [] && t[0] == '-' then
      match Magnitude(t[1..])
      case None => None
      case Some(n) => Some(-(n as int))
    else
      match Magnitude(Unsigned(t))
      case None => None
      case Some(n) => Some(n)
  }

  /** The number the digits at the front of `u` denote; NaN when `u` does not start with a digit. */
  function Magnitude(u: string): (r: Option<nat>)
    ensures r.None? <==> u == [] || !IsDigit(u[0])
  {
    var ds := DigitPrefix(u);
    if ds == [] then None else Some(Value(ds))
  }

  lemma {:induction false} NumeralValue(n: nat)
    ensures Value(Numeral(n)) == n
  {
    if n >= 10 {
      NumeralValue(n / 10);
      var r := Numeral(n / 10) + [DigitChar(n % 10)];
      assert r[..|r| - 1] == Numeral(n / 10);
    }
  }

  /** The digits at the front of a numeral followed by a non-digit are exactly the numeral. */
  lemma {:induction false} DigitPrefixOfNumeral(ds: string, rest: string)
    requires forall i :: 0 <= i < |ds| ==> IsDigit(ds[i])
    requires rest == [] || !IsDigit(rest[0])
    ensures DigitPrefix(ds + rest) == ds
  {
    if ds != [] {
      assert (ds + rest)[1..] == ds[1..] + rest;
      DigitPrefixOfNumeral(ds[1..], rest);
    }
  }

  /** Text that starts with a digit reads as the number its leading digits denote. */
  lemma ParseLeadingDigits(s: string)
    requires s != [] && IsDigit(s[0])
    ensures ParseInt(s) == Some(Value(DigitPrefix(s)))
  {
    assert !IsSpace(s[0]) && s[0] != '-' && s[0] != '+';
    assert TrimStart(s) == s;
    assert Unsigned(s) == s;
    assert Magnitude(s) == Some(Value(DigitPrefix(s)));
  }

  /** Text that does not start with white space is read from its first character. */
  lemma NothingToTrim(t: string)
    requires t != [] && !IsSpace(t[0])
    ensures TrimStart(t) == t
  {
  }

  /** Text made of a minus sign and then `s`, which starts with a digit, reads as the negated number of the digits. */
  lemma ParseMinus(t: string, s: string)
    requires t != [] && t[0] == '-' && t[1..] == s && s != [] && IsDigit(s[0])
    ensures ParseInt(t) == Some(-(Value(DigitPrefix(s)) as int))
  {
    NothingToTrim(t);
    assert Magnitude(s) == Some(Value(DigitPrefix(s)));
  }

  /** A numeral followed by a non-digit starts with a digit, and its leading digits denote the number. */
  lemma NumeralLeads(n: nat, rest: string)
    requires rest == [] || !IsDigit(rest[0])
    ensures var s := Numeral(n) + rest; s != [] && IsDigit(s[0]) && Value(DigitPrefix(s)) == n
  {
    var num := Numeral(n);
    var s := num + rest;
    assert s[0] == num[0];
    DigitPrefixOfNumeral(num, rest);
    NumeralValue(n);
  }

  /**
   * Reading back a rendered number: `parseInt` of the numeral of `n`, followed
   * by any text that does not start with a digit, is `n`.
   */
  lemma ParseNumeral(n: nat, rest: string)
    requires rest == [] || !IsDigit(rest[0])
    ensures ParseInt(Numeral(n) + rest) == Some(n)
  {
    NumeralLeads(n, rest);
    ParseLeadingDigits(Numeral(n) + rest);
  }

  /**
   * With a minus sign in front: text `t` made of `-`, the numeral of `n` and
   * any text that does not start with a digit reads as `-n`.
   */
  lemma ParseNegativeNumeral(n: nat, rest: string, t: string)
    requires rest == [] || !IsDigit(rest[0])
    requires t != [] && t[0] == '-' && t[1..] == Numeral(n) + rest
    ensures ParseInt(t) == Some(-(n as int))
  {
    NumeralLeads(n, rest);
    ParseMinus(t, Numeral(n) + rest);
  }

  /** Text with no digit after its white space and sign reads as NaN. */
  lemma NoDigitsIsNaN(s: string)
    requires forall i :: 0 <= i < |s| ==> !IsDigit(s[i])
    ensures ParseInt(s) == None
  {
    var t := TrimStart(s);
    var u := Unsigned(t);
    assert u == [] || u[0] in s;
  }
}
