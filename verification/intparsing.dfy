/** Swift's `Int(_: String)` as the add-habit form uses it on the goal and
    step fields: an optional sign, then one or more ASCII digits, and a
    value that fits in 64 bits; anything else, spaces included, is nil. */
module IntParsing {
  import opened Optional

  const Int64Max: int := 0x7FFF_FFFF_FFFF_FFFF
  const Int64Min: int := -0x8000_0000_0000_0000

  predicate IsDigit(c: char) {
    '0' <= c <= '9'
  }

  predicate AllDigits(s: string) {
    forall i :: 0 <= i < |s| ==> IsDigit(s[i])
  }

  function DigitValue(c: char): (d: nat)
    requires IsDigit(c)
    ensures d < 10
  {
    c as int - '0' as int
  }

  function DigitChar(d: nat): (c: char)
    requires d < 10
    ensures IsDigit(c) && DigitValue(c) == d
  {
    ('0' as int + d) as char
  }

  /** The value of a run of decimal digits, most significant first. */
  function DigitsValue(s: string): nat
    requires AllDigits(s)
  {
    if |s| == 0 then 0 else 10 * DigitsValue(s[..|s| - 1]) + DigitValue(s[|s| - 1])
  }

  /** The digits after an optional leading sign. */
  function Unsigned(s: string): (u: string)
    ensures |u| <= |s| && (|u| < |s| ==> |s| > 0 && (s[0] == '+' || s[0] == '-'))
    ensures |u| < |s| ==> u == s[1..]
  {
    if |s| > 0 && (s[0] == '+' || s[0] == '-') then s[1..] else s
  }

  /** `Int(_: String)`. */
  function ParseInt(s: string): (r: Option<int>)
    ensures r.Some? ==> Int64Min <= r.value <= Int64Max
    // Nil unless a digit follows the optional sign and only digits follow.
    ensures r.Some? ==> Unsigned(s) != [] && AllDigits(Unsigned(s))
    ensures r.Some? ==> r.value == (if s[0] == '-' then -1 else 1) * DigitsValue(Unsigned(s))
    ensures Unsigned(s) != [] && AllDigits(Unsigned(s)) ==>
              var v := (if s[0] == '-' then -1 else 1) * DigitsValue(Unsigned(s));
              Int64Min <= v <= Int64Max ==> r == Some(v)
  {
    var digits := Unsigned(s);
    if digits == [] || !AllDigits(digits) then None
    else
      var v := (if s[0] == '-' then -1 else 1) * DigitsValue(digits);
      if Int64Min <= v <= Int64Max then Some(v) else None
  }

  /** A string `Int(_:)` accepts holds no whitespace, so an untrimmed field
      with a space in it never parses. */
  lemma ParsedHasNoSpace(s: string, i: nat)
    requires ParseInt(s).Some? && i < |s|
    ensures s[i] != ' ' && s[i] != '\n' && s[i] != '\t'
  {
    var u := Unsigned(s);
    if |u| < |s| && i > 0 {
      assert s[i] == u[i - 1];
    }
  }

  /** The decimal digits of `n`, without leading zeros. */
  function Decimal(n: nat): (s: string)
    ensures |s| >= 1 && AllDigits(s)
    ensures DigitsValue(s) == n
    ensures s[0] != '+' && s[0] != '-'
    decreases n
  {
    if n < 10 then [DigitChar(n)]
    else
      var front := Decimal(n / 10);
      var s := front + [DigitChar(n % 10)];
      assert s[..|s| - 1] == front;
      s
  }

  /** The decimal text of a 64-bit `n`, with a minus sign when negative. */
  function Show(n: int): (s: string)
    ensures |s| >= 1
  {
    if n < 0 then "-" + Decimal(-n) else Decimal(n)
  }

  /** Every 64-bit value survives printing and parsing back. */
  lemma ParseShow(n: int)
    requires Int64Min <= n <= Int64Max
    ensures ParseInt(Show(n)) == Some(n)
  {
    var s := Show(n);
    if n < 0 {
      assert Unsigned(s) == Decimal(-n);
    } else {
      assert Unsigned(s) == Decimal(n);
    }
  }

  /** A leading plus sign is accepted and changes nothing. */
  lemma ParsePlus(n: nat)
    requires n <= Int64Max
    ensures ParseInt("+" + Decimal(n)) == Some(n)
  {
    assert Unsigned("+" + Decimal(n)) == Decimal(n);
  }
}
