/** Java's 32-bit `int` and the two JDK conversions the client relies on:
    `Integer.toString(int)` (used for the pagination metadata) and
    `Integer.parseInt(String)` (used for the registration result code). */
module JavaInt {
  import opened Wrappers

  const MIN_VALUE: int := -0x8000_0000
  const MAX_VALUE: int := 0x7fff_ffff

  /** The values of a Java `int`. */
  type Int32 = x: int | MIN_VALUE <= x <= MAX_VALUE

  predicate IsDigit(c: char) {
    '0' <= c <= '9'
  }

  predicate AllDigits(s: string) {
    forall i :: 0 <= i < |s| ==> IsDigit(s[i])
  }

  function DigitChar(d: nat): (c: char)
    requires d < 10
    ensures IsDigit(c) && (c as int) - ('0' as int) == d
  {
    ((('0' as int) + d) as char)
  }

  /** The number a string of decimal digits denotes, most significant first. */
  function DecimalValue(s: string): (v: nat)
    requires AllDigits(s)
  {
    if |s| == 0 then 0
    else DecimalValue(s[..|s| - 1]) * 10 + ((s[|s| - 1] as int) - ('0' as int))
  }

  /** Shortest decimal spelling of a natural number. */
  function NatToDecimal(n: nat): (s: string)
  {
    if n < 10 then [DigitChar(n)] else NatToDecimal(n / 10) + [DigitChar(n % 10)]
  }

  /** `Integer.toString(n)`: a minus sign for negatives, then the digits. */
  function ToString(n: int): (s: string)
  {
    if n < 0 then "-" + NatToDecimal(-n) else NatToDecimal(n)
  }

  /** `s` without its leading sign, if it has one. */
  function Unsigned(s: string): (digits: string)
    requires |s| > 0
  {
    if s[0] == '-' || s[0] == '+' then s[1..] else s
  }

  /** A string `Integer.parseInt` can read: an optional sign followed by at
      least one decimal digit. */
  predicate IsDecimalSpelling(s: string) {
    |s| > 0 && |Unsigned(s)| > 0 && AllDigits(Unsigned(s))
  }

  /** The value a decimal spelling denotes, negated under a leading '-'. */
  function SignedValue(s: string): (v: int)
    requires IsDecimalSpelling(s)
  {
    if s[0] == '-' then -(DecimalValue(Unsigned(s)) as int) else DecimalValue(Unsigned(s))
  }

  /** `Integer.parseInt(s)`: an optional sign, at least one decimal digit,
      and a value inside the `int` range; `None` is a NumberFormatException. */
  function ParseInt(s: string): (r: Option<Int32>)
    ensures r.Some? <==> IsDecimalSpelling(s) && MIN_VALUE <= SignedValue(s) <= MAX_VALUE
    ensures r.Some? ==> r.value == SignedValue(s)
    ensures r.Some? ==> |s| > 0 && |Unsigned(s)| > 0 && AllDigits(Unsigned(s))
    ensures r.Some? && s[0] != '-' ==> r.value == DecimalValue(Unsigned(s))
    ensures r.Some? && s[0] == '-' ==> r.value == -(DecimalValue(Unsigned(s)) as int)
    ensures |s| > 0 && AllDigits(s) && DecimalValue(s) <= MAX_VALUE ==> r == Some(DecimalValue(s))
  {
    if |s| == 0 then None
    else
      var digits := Unsigned(s);
      if |digits| == 0 || !AllDigits(digits) then None
      else
        var v := SignedValue(s);
        if MIN_VALUE <= v <= MAX_VALUE then Some(v) else None
  }

  /** Signed, zero-padded and out-of-range spellings, as `Integer.parseInt`
      reads them. */
  lemma ParseIntExamples()
    ensures ParseInt("-05") == Some(-5)
    ensures ParseInt("+7") == Some(7)
    ensures ParseInt(ToString(MAX_VALUE + 1)) == None
    ensures ParseInt(ToString(MIN_VALUE - 1)) == None
    ensures ParseInt("-") == None
    ensures ParseInt("1a") == None
  {
    assert Unsigned("-05") == "05";
    assert "05"[..1] == "0" && "0"[..0] == "";
    assert DecimalValue("05") == 5;
    assert Unsigned("+7") == "7";
    assert !IsDigit("1a"[1]);
    NatToDecimalDigits(MAX_VALUE + 1);
    NatToDecimalDigits(-(MIN_VALUE - 1));
    assert Unsigned(ToString(MIN_VALUE - 1)) == NatToDecimal(-(MIN_VALUE - 1));
  }

  lemma {:induction false} NatToDecimalDigits(n: nat)
    ensures |NatToDecimal(n)| > 0
    ensures AllDigits(NatToDecimal(n))
    ensures DecimalValue(NatToDecimal(n)) == n
    decreases n
  {
    if n >= 10 {
      NatToDecimalDigits(n / 10);
      var s := NatToDecimal(n);
      var p := NatToDecimal(n / 10);
      assert s == p + [DigitChar(n % 10)];
      assert s[..|s| - 1] == p;
    }
  }

  /** `ToString` is never empty, starts with '-' exactly for negatives, and
      is otherwise made of decimal digits only. */
  lemma ToStringShape(n: int)
    ensures |ToString(n)| > 0
    ensures (ToString(n)[0] == '-') <==> n < 0
    ensures n >= 0 ==> AllDigits(ToString(n))
    ensures n < 0 ==> |ToString(n)| > 1 && AllDigits(ToString(n)[1..])
  {
    if n < 0 {
      NatToDecimalDigits(-n);
      assert ToString(n)[1..] == NatToDecimal(-n);
    } else {
      NatToDecimalDigits(n);
    }
  }

  /** `Integer.parseInt(Integer.toString(n)) == n` for every `int` n. */
  lemma {:induction false} ParseToString(n: Int32)
    ensures ParseInt(ToString(n)) == Some(n)
  {
    var s := ToString(n);
    if n < 0 {
      NatToDecimalDigits(-(n as int));
      assert s[1..] == NatToDecimal(-(n as int));
    } else {
      NatToDecimalDigits(n);
    }
  }
}
