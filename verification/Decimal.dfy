/** Decimal numerals: writing an integer and reading a 64-bit one back. */
module Decimal {
  import opened CsiTypes

  const MIN_INT64 := -0x8000_0000_0000_0000
  const MAX_INT64 := 0x7fff_ffff_ffff_ffff

  function DigitChar(d: int): char
    requires 0 <= d < 10
  {
    '0' + d as char
  }

  function Digits(n: nat): (s: string)
    ensures s != []
  {
    if n < 10 then [DigitChar(n)] else Digits(n / 10) + [DigitChar(n % 10)]
  }

  function Itoa(n: int): string {
    if n < 0 then "-" + Digits(-n) else Digits(n)
  }

  predicate IsDigit(c: char) {
    '0' <= c <= '9'
  }

  function DigitsValue(s: string): (v: int)
    requires forall c :: c in s ==> IsDigit(c)
    ensures v >= 0
  {
    if s == [] then 0
    else
      assert IsDigit(s[|s| - 1]);
      10 * DigitsValue(s[..|s| - 1]) + (s[|s| - 1] as int - '0' as int)
  }

  /** A numeral may carry a sign and leading zeros; it has to fit into 64 bits. */
  function ParseInt(s: string): Option<int> {
    var signed := s != "" && (s[0] == '+' || s[0] == '-');
    var digits := if signed then s[1..] else s;
    if digits == "" || exists c :: c in digits && !IsDigit(c) then None
    else
      var v := if signed && s[0] == '-' then -DigitsValue(digits) else DigitsValue(digits);
      if MIN_INT64 <= v <= MAX_INT64 then Some(v) else None
  }

  lemma {:induction false} DigitsRead(n: nat)
    ensures forall c :: c in Digits(n) ==> IsDigit(c)
    ensures DigitsValue(Digits(n)) == n
  {
    if n >= 10 {
      DigitsRead(n / 10);
      var s := Digits(n);
      assert s[..|s| - 1] == Digits(n / 10);
    }
  }

  lemma ParseItoa(n: int)
    requires MIN_INT64 <= n <= MAX_INT64
    ensures ParseInt(Itoa(n)) == Some(n)
  {
    var d := if n < 0 then -n else n;
    DigitsRead(d);
    assert Digits(d)[0] in Digits(d);
    if n < 0 {
      assert Itoa(n)[1..] == Digits(d);
    }
  }

  lemma ItoaInjective(a: nat, b: nat)
    requires Itoa(a) == Itoa(b)
    ensures a == b
  {
    DigitsRead(a);
    DigitsRead(b);
  }

  lemma ShortNumeral(n: nat)
    requires n < 1000
    ensures |Itoa(n)| <= 3
  {
    assert n >= 10 ==> |Digits(n / 10)| <= 2;
  }

  /** A numeral is a sign or none, then digits, at least one. */
  ghost predicate Numeral(sign: string, digits: string) {
    sign in {"", "+", "-"} && digits != "" && forall c :: c in digits ==> '0' <= c <= '9'
  }

  /** Exactly the numerals whose value fits into 64 bits are read, and read as that value. */
  lemma ParseMeans(sign: string, digits: string)
    requires Numeral(sign, digits)
    ensures var v := if sign == "-" then -DigitsValue(digits) else DigitsValue(digits);
            ParseInt(sign + digits) == if -0x8000_0000_0000_0000 <= v <= 0x7fff_ffff_ffff_ffff then Some(v) else None
  {
    var s := sign + digits;
    assert digits[0] in digits;
    if sign == "" {
      assert s == digits;
    } else {
      assert s[1..] == digits;
    }
  }

  lemma OnlyNumeralsAreRead(s: string)
    requires ParseInt(s).Some?
    ensures exists sign, digits :: Numeral(sign, digits) && s == sign + digits
  {
    var signed := s[0] == '+' || s[0] == '-';
    var digits := if signed then s[1..] else s;
    assert forall c :: c in digits ==> IsDigit(c);
    var sign := s[..|s| - |digits|];
    assert s == sign + digits;
    assert signed ==> sign == [s[0]];
    assert Numeral(sign, digits);
  }

  /** The value of digits: a last digit counts one, everything before it ten times; leading zeros count nothing. */
  lemma {:induction false} LeadingZero(digits: string)
    requires forall c :: c in digits ==> IsDigit(c)
    ensures DigitsValue("0" + digits) == DigitsValue(digits)
    ensures DigitsValue("1" + digits) == DigitsValue(digits) + Tens(|digits|)
  {
    var z, o := "0" + digits, "1" + digits;
    if digits == "" {
      assert z[..0] == "" && o[..0] == "";
    } else {
      var front := digits[..|digits| - 1];
      LeadingZero(front);
      assert z[..|z| - 1] == "0" + front && o[..|o| - 1] == "1" + front;
    }
  }

  function Tens(n: nat): nat {
    if n == 0 then 1 else 10 * Tens(n - 1)
  }

  /** A number is written with a sign only if it is negative, and without leading zeros. */
  lemma {:induction false} ItoaMeans(n: int)
    ensures n >= 0 ==> forall c :: c in Itoa(n) ==> '0' <= c <= '9'
    ensures n < 0 ==> Itoa(n) == "-" + Itoa(-n)
    ensures n > 0 ==> Itoa(n)[0] != '0'
    ensures Itoa(0) == "0"
  {
    if n >= 0 {
      DigitsRead(n);
      FirstDigit(n);
    }
  }

  lemma {:induction false} FirstDigit(n: nat)
    ensures n > 0 ==> Digits(n)[0] != '0'
  {
    if n >= 10 {
      FirstDigit(n / 10);
    }
  }
}
