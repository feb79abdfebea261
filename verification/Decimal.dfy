/** Decimal numbers as the payloads carry them: printing, parsing and the checked numeric field. */
module Decimal {
  import opened Wrappers
  import opened Text

  predicate IsDigit(c: char) { '0' <= c <= '9' }

  function Digit(d: nat): char
    requires d < 10
  {
    ('0' as int + d) as char
  }

  function DigitValue(c: char): nat
    requires IsDigit(c)
  {
    c as int - '0' as int
  }

  predicate AllDigits(s: string) { forall c <- s :: IsDigit(c) }

  function PrintNat(n: nat): (s: string)
    ensures s != "" && AllDigits(s)
  {
    if n < 10 then [Digit(n)] else PrintNat(n / 10) + [Digit(n % 10)]
  }

  function Print(n: int): string { if n < 0 then "-" + PrintNat(-n) else PrintNat(n) }

  function ParseNat(s: string): nat
    requires AllDigits(s)
  {
    if s == "" then 0 else 10 * ParseNat(s[..|s| - 1]) + DigitValue(s[|s| - 1])
  }

  /** An optional sign and at least one digit, nothing else. */
  function Parse(s: string): Option<int>
  {
    var signed := s != "" && (s[0] == '+' || s[0] == '-');
    var digits := if signed then s[1..] else s;
    if digits == "" || !AllDigits(digits) then None
    else
      var n: int := ParseNat(digits);
      Some(if signed && s[0] == '-' then -n else n)
  }

  /** strconv.ParseInt(s, 10, bits): out of range is an error. */
  function ParseInt(s: string, limit: int): (r: Option<int>)
    ensures r.Some? ==> -limit <= r.value < limit
  {
    match Parse(s)
    case Some(n) => if -limit <= n < limit then Some(n) else None
    case None => None
  }

  const LIMIT32: int := 0x8000_0000
  const LIMIT64: int := 0x8000_0000_0000_0000

  lemma {:induction false} ParsePrintNat(n: nat)
    ensures ParseNat(PrintNat(n)) == n
  {
    var s := PrintNat(n);
    if n < 10 {
      assert s == [Digit(n)] && s[..|s| - 1] == "";
    } else {
      ParsePrintNat(n / 10);
      assert s[..|s| - 1] == PrintNat(n / 10) && s[|s| - 1] == Digit(n % 10);
    }
  }

  /** No leading zeros, and a sign only where it is needed. */
  lemma {:induction false} PrintCanonical(n: nat)
    ensures n < 10 ==> |PrintNat(n)| == 1
    ensures n > 0 ==> PrintNat(n)[0] != '0'
    ensures var m: int := n; n > 0 ==> Print(m) == PrintNat(n) && Print(-m) == "-" + PrintNat(n)
  {
    if n >= 10 {
      PrintCanonical(n / 10);
    }
  }

  /** Print and parse are inverse on every integer. */
  lemma ParsePrint(n: int)
    ensures Parse(Print(n)) == Some(n)
  {
    if n < 0 {
      ParsePrintNat(-n);
      assert Print(n)[1..] == PrintNat(-n);
    } else {
      ParsePrintNat(n);
      assert PrintNat(n)[0] in PrintNat(n);
    }
  }

  /** Two numbers never print alike, so numbered keys never collide. */
  lemma PrintInjective(a: int, b: int)
    requires Print(a) == Print(b)
    ensures a == b
  {
    ParsePrint(a);
    ParsePrint(b);
  }

  /** A leading plus sign changes nothing, and a numeral must fit its width. */
  lemma SignsAndWidths(n: nat, s: string)
    ensures Parse("+" + PrintNat(n)) == Some(n) && Parse("") == None && Parse("-") == None && Parse("+") == None
    ensures ParseInt(s, LIMIT32) == if Parse(s).Some? && -2147483648 <= Parse(s).value <= 2147483647 then Parse(s) else None
    ensures ParseInt(s, LIMIT64) == if Parse(s).Some? && -9223372036854775808 <= Parse(s).value <= 9223372036854775807 then Parse(s) else None
  {
    var t := "+" + PrintNat(n);
    ParsePrintNat(n);
    assert t[1..] == PrintNat(n) && t[0] == '+';
    assert "-"[1..] == "" && "+"[1..] == "";
  }

  // ----- numeric fields -----

  function DecimalField(value: string, fallback: string): string
  {
    if value == "" then fallback
    else if ParseInt(value, LIMIT32).None? then fallback
    else value
  }

  /** A 32-bit numeral is kept as it was written, anything else is replaced. */
  lemma DecimalFieldExactly(value: string, fallback: string)
    ensures var n := Parse(value);
            DecimalField(value, fallback) == if n.Some? && -2147483648 <= n.value <= 2147483647 then value else fallback
  {
    SignsAndWidths(0, value);
  }

  predicate NumeralChar(c: char) { IsDigit(c) || c == '+' || c == '-' }

  lemma ParsedChars(s: string)
    requires Parse(s).Some?
    ensures s != "" && forall c <- s :: NumeralChar(c)
  {
    var signed := s[0] == '+' || s[0] == '-';
    forall c | c in s
      ensures NumeralChar(c)
    {
      assert c == s[0] || c in s[1..];
    }
  }

  lemma NumeralStable(s: string)
    requires forall c <- s :: NumeralChar(c)
    ensures Stable(s) && Unseparated(s)
  {
    if s != "" {
      assert s[0] in s && s[|s| - 1] in s;
    }
  }

  /** With a numeric fallback the field is a 32-bit numeral, is not changed by reading it back, and
      passing it through again changes nothing. */
  lemma DecimalFieldProper(value: string, fallback: string)
    requires ParseInt(fallback, LIMIT32).Some?
    ensures var d := DecimalField(value, fallback);
            ParseInt(d, LIMIT32).Some? && Unseparated(d) && Stable(d) && Reading(d) == d && DecimalField(d, fallback) == d
  {
    var d := DecimalField(value, fallback);
    ParsedChars(d);
    NumeralStable(d);
    StableReads(d);
  }
}
