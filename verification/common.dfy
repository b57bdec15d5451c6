/** Small shared vocabulary: optional values, JavaScript truthiness of request
    fields, and decimal numerals as JavaScript prints and parses them. */
module Common {

  /** A value that may be absent: an undefined request field or a SQL NULL. */
  datatype Option<+T> = None | Some(value: T)

  predicate IsDigit(c: char) {
    '0' <= c <= '9'
  }

  predicate AllDigits(s: string) {
    forall i :: 0 <= i < |s| ==> IsDigit(s[i])
  }

  /** A string of digits contains no other character. */
  lemma DigitsExclude(s: string, c: char)
    requires AllDigits(s) && !IsDigit(c)
    ensures c !in s
  {
  }

  /** JavaScript truthiness of a string-valued request field: present and non-empty. */
  predicate Truthy(field: Option<string>) {
    field.Some? && field.value != ""
  }

  function DigitChar(d: nat): (c: char)
    requires d < 10
    ensures IsDigit(c)
  {
    ('0' as int + d) as char
  }

  function DigitValue(c: char): (d: nat)
    requires IsDigit(c)
    ensures d < 10
  {
    c as int - '0' as int
  }

  /** The value of a string of decimal digits, most significant digit first. */
  function DecimalValue(s: string): nat
    requires AllDigits(s)
  {
    if |s| == 0 then 0 else DecimalValue(s[..|s| - 1]) * 10 + DigitValue(s[|s| - 1])
  }

  /** Decimal rendering of a natural number without leading zeros, as
      JavaScript's Number-to-String conversion prints an integer. */
  function NatToString(n: nat): (r: string)
    ensures |r| >= 1 && AllDigits(r)
    ensures DecimalValue(r) == n
    ensures |r| > 1 ==> r[0] != '0'
  {
    if n < 10 then [DigitChar(n)]
    else
      var front := NatToString(n / 10);
      var r := front + [DigitChar(n % 10)];
      assert r[..|r| - 1] == front;
      r
  }

  /** Decimal rendering of an integer, with a leading minus sign when negative. */
  function IntToString(n: int): (r: string)
    ensures |r| >= 1 && (r[0] == '-' <==> n < 0)
    ensures n >= 0 ==> AllDigits(r) && DecimalValue(r) == n
    ensures n < 0 ==> |r| >= 2 && AllDigits(r[1..]) && DecimalValue(r[1..]) == -n
  {
    if n >= 0 then NatToString(n) else "-" + NatToString(-n)
  }

  function Pow10(k: nat): (p: nat)
    ensures p >= 1
  {
    if k == 0 then 1 else 10 * Pow10(k - 1)
  }

  /** A rendering is longer than k digits (k >= 1) exactly when the number reaches 10^k. */
  lemma {:induction false} RenderingLength(n: nat, k: nat)
    requires k >= 1
    ensures |NatToString(n)| > k <==> n >= Pow10(k)
  {
    if k > 1 && n >= 10 {
      RenderingLength(n / 10, k - 1);
      assert n / 10 >= Pow10(k - 1) <==> n >= 10 * Pow10(k - 1);
    }
  }

  /** The rendering of a number has exactly four digits precisely for 1000..9999. */
  lemma FourDigitRendering(n: nat)
    ensures |NatToString(n)| == 4 <==> 1000 <= n <= 9999
  {
    RenderingLength(n, 3);
    RenderingLength(n, 4);
  }

  /** JavaScript's parseInt on a string: an optional sign followed by the
      longest run of leading decimal digits; None stands for NaN. */
  function ParseInt(s: string): (r: Option<int>)
    ensures AllDigits(s) && |s| > 0 ==> r == Some(DecimalValue(s))
    ensures |s| == 0 ==> r == None
  {
    if |s| > 0 && (s[0] == '-' || s[0] == '+') then
      var digits := LeadingDigits(s[1..]);
      if |digits| == 0 then None
      else if s[0] == '-' then Some(-(DecimalValue(digits) as int))
      else Some(DecimalValue(digits))
    else
      var digits := LeadingDigits(s);
      if |digits| == 0 then None else Some(DecimalValue(digits))
  }

  /** parseInt reads back the decimal rendering of any integer. */
  lemma ParseIntRendering(n: int)
    ensures ParseInt(IntToString(n)) == Some(n)
  {
    if n < 0 {
      var s := "-" + NatToString(-n);
      assert s[1..] == NatToString(-n);
    } else {
      assert IsDigit(NatToString(n)[0]);
    }
  }

  /** parseInt stops at the first character that is not a digit. */
  lemma ParseIntStopsAtNonDigit(digits: string, rest: string)
    requires |digits| > 0 && AllDigits(digits)
    requires |rest| == 0 || !IsDigit(rest[0])
    ensures ParseInt(digits + rest) == Some(DecimalValue(digits))
  {
    LeadingDigitsOfPrefix(digits, rest);
    assert IsDigit((digits + rest)[0]);
  }

  lemma {:induction false} LeadingDigitsOfPrefix(digits: string, rest: string)
    requires AllDigits(digits)
    requires |rest| == 0 || !IsDigit(rest[0])
    ensures LeadingDigits(digits + rest) == digits
  {
    if |digits| > 0 {
      assert (digits + rest)[1..] == digits[1..] + rest;
      LeadingDigitsOfPrefix(digits[1..], rest);
    } else {
      assert digits + rest == rest;
    }
  }

  /** The longest prefix of s made of decimal digits. */
  function LeadingDigits(s: string): (r: string)
    ensures AllDigits(r) && r <= s
    ensures |r| < |s| ==> !IsDigit(s[|r|])
    ensures AllDigits(s) ==> r == s
  {
    if |s| == 0 || !IsDigit(s[0]) then "" else [s[0]] + LeadingDigits(s[1..])
  }
}
