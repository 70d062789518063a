/**
 * Integer literals: the part of Python's `int(text)` the scrapers rely on.
 *
 * A literal is an optional `+` or `-` followed by one or more ASCII decimal
 * digits. Whitespace, underscores and other Unicode digits, which Python also
 * accepts, are outside this model.
 */
module Numbers {
  import opened Wrappers

  /** The `ValueError` that `int(text)` raises on a non-literal. */
  datatype IntError = InvalidLiteral(text: string)

  predicate IsDigit(c: char) {
    '0' <= c <= '9'
  }

  predicate AllDigits(s: string) {
    forall i :: 0 <= i < |s| ==> IsDigit(s[i])
  }

  /** True when `int(s)` succeeds in this model. */
  predicate IsIntLiteral(s: string) {
    || (|s| >= 1 && AllDigits(s))
    || (|s| >= 2 && (s[0] == '-' || s[0] == '+') && AllDigits(s[1..]))
  }

  /** The value of a string of decimal digits, most significant first. */
  function DigitsValue(s: string): nat
    requires AllDigits(s)
    decreases |s|
  {
    if s == [] then 0
    else 10 * DigitsValue(s[..|s| - 1]) + (s[|s| - 1] as int - '0' as int)
  }

  /** Python's `int(s)`: the value of a literal, None when `int` would raise. */
  function ParseInt(s: string): (r: Option<int>)
    ensures r.Some? <==> IsIntLiteral(s)
    ensures r.Some? && s[0] != '-' ==> r.value >= 0
    ensures r.Some? && s[0] == '-' ==> r.value <= 0
  {
    if |s| >= 1 && AllDigits(s) then Some(DigitsValue(s))
    else if |s| >= 2 && s[0] == '-' && AllDigits(s[1..]) then Some(0 - DigitsValue(s[1..]) as int)
    else if |s| >= 2 && s[0] == '+' && AllDigits(s[1..]) then Some(DigitsValue(s[1..]))
    else None
  }

  /** `int(s)` with the exception made explicit. */
  function ParseIntOrRaise(s: string): (r: Result<int, IntError>)
    ensures r.Ok? <==> IsIntLiteral(s)
    ensures r.Err? ==> r.error == InvalidLiteral(s)
  {
    match ParseInt(s)
    case Some(n) => Ok(n)
    case None => Err(InvalidLiteral(s))
  }

  function DigitChar(d: nat): (c: char)
    requires d < 10
    ensures IsDigit(c) && c as int - '0' as int == d
  {
    ('0' as int + d) as char
  }

  /** The shortest decimal spelling of a natural number (Python's `str(n)`). */
  function NatToString(n: nat): (s: string)
    ensures |s| >= 1 && AllDigits(s)
    decreases n
  {
    if n < 10 then [DigitChar(n)] else NatToString(n / 10) + [DigitChar(n % 10)]
  }

  /** Python's `str(n)` for any integer. */
  function IntToString(n: int): (s: string)
    ensures |s| >= 1
    ensures forall i :: 0 <= i < |s| ==> IsDigit(s[i]) || (i == 0 && s[i] == '-')
  {
    if n < 0 then "-" + NatToString(-n) else NatToString(n)
  }

  lemma {:induction false} DigitsValueOfNatToString(n: nat)
    ensures DigitsValue(NatToString(n)) == n
    decreases n
  {
    var s := NatToString(n);
    if n >= 10 {
      DigitsValueOfNatToString(n / 10);
      assert s[..|s| - 1] == NatToString(n / 10);
    } else {
      assert s[..|s| - 1] == [];
    }
  }

  /** A leading zero does not change the value of a digit string. */
  lemma {:induction false} DigitsValueLeadingZero(s: string)
    requires AllDigits(s)
    ensures AllDigits("0" + s) && DigitsValue("0" + s) == DigitsValue(s)
    decreases |s|
  {
    var t := "0" + s;
    assert forall i :: 0 <= i < |t| ==> IsDigit(t[i]) by {
      forall i | 0 <= i < |t| ensures IsDigit(t[i]) {
        if i > 0 { assert t[i] == s[i - 1]; }
      }
    }
    if s == [] {
      assert t[..0] == [];
    } else {
      var init := s[..|s| - 1];
      DigitsValueLeadingZero(init);
      assert t[..|t| - 1] == "0" + init;
      assert t[|t| - 1] == s[|s| - 1];
    }
  }

  /** `int` ignores zero padding: `int("0" + s) == int(s)` for every digit string `s`, so "05" reads as 5. */
  lemma ParseIntLeadingZero(s: string)
    requires |s| >= 1 && AllDigits(s)
    ensures ParseInt("0" + s) == ParseInt(s)
  {
    DigitsValueLeadingZero(s);
  }

  /**
   * A sign in front of a digit string: `int("+" + s) == int(s)` and
   * `int("-" + s) == -int(s)`, zero padding included ("-05" reads as -5).
   */
  lemma ParseIntSigned(s: string)
    requires |s| >= 1 && AllDigits(s)
    ensures ParseInt("+" + s) == ParseInt(s)
    ensures ParseInt("-" + s) == Some(0 - ParseInt(s).value)
  {
    var plus, minus := "+" + s, "-" + s;
    assert plus[1..] == s && minus[1..] == s;
    assert !AllDigits(plus) by { assert !IsDigit(plus[0]); }
    assert !AllDigits(minus) by { assert !IsDigit(minus[0]); }
  }

  /** Every integer's spelling parses back to it: `int(str(n)) == n`. */
  lemma ParseIntOfIntToString(n: int)
    ensures ParseInt(IntToString(n)) == Some(n)
  {
    var s := IntToString(n);
    if n < 0 {
      var digits := NatToString(-n);
      DigitsValueOfNatToString(-n);
      assert s == "-" + digits;
      assert s[1..] == digits;
      assert !AllDigits(s) by {
        assert !IsDigit(s[0]);
      }
      assert ParseInt(s) == Some(0 - DigitsValue(digits) as int);
    } else {
      DigitsValueOfNatToString(n);
      assert s == NatToString(n);
      assert ParseInt(s) == Some(DigitsValue(s));
    }
  }
}
