/** Java `long` in decimal text: `Long.toString` as string concatenation
    writes it and `Long.parseLong` reads it back. */
module JavaNumber {
  import opened Wrappers
  import SeqFacts

  const MinLong: int := -0x8000_0000_0000_0000
  const MaxLong: int := 0x7FFF_FFFF_FFFF_FFFF

  predicate IsLong(n: int) {
    MinLong <= n <= MaxLong
  }

  predicate IsDigit(c: char) {
    '0' <= c <= '9'
  }

  predicate AllDigits(s: string) {
    forall i :: 0 <= i < |s| ==> IsDigit(s[i])
  }

  function DigitChar(d: int): (c: char)
    requires 0 <= d < 10
    ensures IsDigit(c) && c as int - '0' as int == d
  {
    ('0' as int + d) as char
  }

  /** The decimal digits of `n`, most significant first, without leading
      zeros. */
  function Decimal(n: nat): (s: string)
    ensures 1 <= |s| && AllDigits(s)
    decreases n
  {
    if n < 10 then [DigitChar(n)] else Decimal(n / 10) + [DigitChar(n % 10)]
  }

  /** `Long.toString(n)`. */
  function LongToString(n: int): string {
    if n < 0 then "-" + Decimal(-n) else Decimal(n)
  }

  /** The value of a run of decimal digits. */
  function DigitsValue(s: string): (n: nat)
    requires AllDigits(s)
    decreases |s|
  {
    if s == [] then 0
    else
      assert IsDigit(s[|s| - 1]);
      DigitsValue(s[..|s| - 1]) * 10 + (s[|s| - 1] as int - '0' as int)
  }

  /** `Long.parseLong(s)`: an optional sign, at least one digit, and a value
      within the range of `long`; anything else is a `NumberFormatException`
      (here `None`). */
  function ParseLong(s: string): (r: Option<int>)
    ensures r.Some? ==> IsLong(r.value)
  {
    if s == [] then None
    else
      var negative := s[0] == '-';
      var digits := if s[0] == '-' || s[0] == '+' then s[1..] else s;
      if digits == [] || !AllDigits(digits) then None
      else
        var n: int := DigitsValue(digits);
        var v := if negative then -n else n;
        if IsLong(v) then Some(v) else None
  }

  /** The digits read back to the number they were written from. */
  lemma {:induction false} DigitsValueDecimal(n: nat)
    ensures DigitsValue(Decimal(n)) == n
    decreases n
  {
    if n >= 10 {
      var d := Decimal(n / 10);
      SeqFacts.Snoc(d, DigitChar(n % 10));
      DigitsValueDecimal(n / 10);
    }
  }

  /** Round trip: `Long.parseLong(Long.toString(n)) == n` for every `long`. */
  lemma ParseLongToString(n: int)
    requires IsLong(n)
    ensures ParseLong(LongToString(n)) == Some(n)
  {
    var m := if n < 0 then -n else n;
    DigitsValueDecimal(m);
    var s := LongToString(n);
    if n < 0 {
      assert s[1..] == Decimal(m);
    } else {
      assert s[0] != '-' && s[0] != '+';
    }
  }

  /** A string with a character other than a digit after the sign is
      refused. */
  lemma ParseLongRejects(s: string, i: nat)
    requires 0 < i < |s| && !IsDigit(s[i])
    ensures ParseLong(s) == None
  {
    if s[0] == '-' || s[0] == '+' {
      assert s[1..][i - 1] == s[i];
      assert !AllDigits(s[1..]);
    } else {
      assert !AllDigits(s);
    }
  }
}
