/**
  Character classes of Ruby's regular expressions and of `String#split(' ')`
  (both ASCII only), leading-whitespace removal, and the decimal form of an
  Integer as `Integer#to_s` writes it.
 */
module Text {
  import opened Records

  /** Ruby's `\w`: an ASCII letter, digit or underscore. */
  predicate IsWordChar(c: char)
  {
    'a' <= c <= 'z' || 'A' <= c <= 'Z' || '0' <= c <= '9' || c == '_'
  }

  /** Ruby's `\s`, also the separators of `split(' ')`: space, tab, LF, VT, FF, CR. */
  predicate IsSpace(c: char)
  {
    c == ' ' || c == '\t' || c == '\n' || c == '\r' || c as int == 0x0B || c as int == 0x0C
  }

  predicate IsDigit(c: char)
  {
    '0' <= c <= '9'
  }

  predicate AllSpace(s: string)
  {
    forall i :: 0 <= i < |s| ==> IsSpace(s[i])
  }

  predicate NoSpace(s: string)
  {
    forall i :: 0 <= i < |s| ==> !IsSpace(s[i])
  }

  /** s without its leading run of whitespace. */
  function DropSpaces(s: string): (r: string)
    ensures |r| <= |s|
    ensures r == [] || !IsSpace(r[0])
  {
    if s != [] && IsSpace(s[0]) then DropSpaces(s[1..]) else s
  }

  /** What DropSpaces removes is a run of whitespace, and what it keeps is the rest of s. */
  lemma {:induction false} DropSpacesSplits(s: string)
    ensures DropSpaces(s) == s[|s| - |DropSpaces(s)|..]
    ensures AllSpace(s[..|s| - |DropSpaces(s)|])
  {
    if s != [] && IsSpace(s[0]) {
      var t := s[1..];
      var k := |s| - |DropSpaces(s)|;
      DropSpacesSplits(t);
      assert DropSpaces(s) == DropSpaces(t);
      assert t[k - 1..] == s[k..];
      assert forall i :: 1 <= i < k ==> s[..k][i] == t[..k - 1][i - 1];
    }
  }

  /** Only a blank string loses everything to DropSpaces. */
  lemma {:induction false} DropSpacesEmptyIffBlank(s: string)
    ensures DropSpaces(s) == [] <==> AllSpace(s)
  {
    if s != [] && IsSpace(s[0]) {
      DropSpacesEmptyIffBlank(s[1..]);
      assert AllSpace(s) <==> AllSpace(s[1..]);
    }
  }

  function DigitChar(d: int): (c: char)
    requires 0 <= d < 10
    ensures IsDigit(c)
  {
    ('0' as int + d) as char
  }

  function DigitValue(c: char): (d: nat)
    requires IsDigit(c)
    ensures d < 10
  {
    c as int - '0' as int
  }

  /** The decimal digits of n, without leading zeros. */
  function NatToString(n: nat): (s: string)
    ensures s != [] && AllDigits(s)
    ensures s[0] == '0' ==> s == "0"
  {
    if n < 10 then [DigitChar(n)] else NatToString(n / 10) + [DigitChar(n % 10)]
  }

  /** `Integer#to_s`: a minus sign for a negative number, then the digits. */
  function IntToString(n: int): (s: string)
    ensures s != [] && (s[0] == '-' <==> n < 0)
    ensures n >= 0 ==> AllDigits(s) && (s[0] == '0' ==> n == 0)
    ensures n < 0 ==> |s| >= 2 && AllDigits(s[1..]) && s[1] != '0'
  {
    if n < 0 then "-" + NatToString(-n) else NatToString(n)
  }

  predicate AllDigits(s: string)
  {
    forall i :: 0 <= i < |s| ==> IsDigit(s[i])
  }

  /** The value of a string of decimal digits. */
  function ParseDigits(s: string): nat
    requires AllDigits(s)
  {
    if s == [] then 0 else ParseDigits(s[..|s| - 1]) * 10 + DigitValue(s[|s| - 1])
  }

  /** Reads back a non-empty run of decimal digits; anything else is None. */
  function ParseNat(s: string): Option<nat>
  {
    if s != [] && AllDigits(s) then Some(ParseDigits(s)) else None
  }

  /** Reads back an optionally signed decimal numeral; anything else is None. */
  function ParseInt(s: string): Option<int>
  {
    if s != [] && s[0] == '-' then
      match ParseNat(s[1..])
      case None => None
      case Some(v) => Some(-(v as int))
    else ParseNat(s)
  }

  lemma {:induction false} ParseNatToString(n: nat)
    ensures ParseDigits(NatToString(n)) == n
  {
    if n >= 10 {
      var s := NatToString(n);
      assert s[..|s| - 1] == NatToString(n / 10);
      ParseNatToString(n / 10);
    }
  }

  /** Reading back the decimal form of any Integer gives that Integer. */
  lemma IntToStringRoundTrip(n: int)
    ensures ParseInt(IntToString(n)) == Some(n)
  {
    if n < 0 {
      var d := NatToString(-n);
      assert IntToString(n)[0] == '-' && IntToString(n)[1..] == d;
      ParseNatToString(-n);
      assert ParseNat(d) == Some(-n);
    } else {
      ParseNatToString(n);
    }
  }
}
