/**
 * JavaScript's `Number(text)` on strings (StringToNumber) and `Number.isInteger`
 * on its result, abstracted to the three outcomes the record form and the
 * records route care about.  Values are exact rationals here: doubles are not
 * modelled.
 */
module JsNumber {
  import opened Wrappers
  import opened JsText

  /**
   * What `Number(v)` yields, seen through `Number.isInteger`: an integer, a
   * number that is not an integer (a fraction, Infinity or -Infinity), or NaN.
   */
  datatype NumberValue = IntVal(n: int) | NonInteger | NaN

  /** Unary minus on a number. */
  function Negate(v: NumberValue): NumberValue
  {
    match v
    case IntVal(n) => IntVal(-n)
    case NonInteger => NonInteger
    case NaN => NaN
  }

  /** The value of a digit character in radix 2 to 36, or 36 if it is no digit at all. */
  function DigitValue(c: char): (d: nat)
    ensures d <= 36
  {
    if '0' <= c <= '9' then (c as int) - ('0' as int)
    else if 'a' <= c <= 'z' then (c as int) - ('a' as int) + 10
    else if 'A' <= c <= 'Z' then (c as int) - ('A' as int) + 10
    else 36
  }

  /** Every character of s is a digit of the given radix. */
  predicate AllDigitsIn(s: string, radix: nat)
  {
    forall i :: 0 <= i < |s| ==> DigitValue(s[i]) < radix
  }

  /** The value of a digit string read most significant digit first. */
  function ValueIn(s: string, radix: nat): (v: nat)
    requires AllDigitsIn(s, radix)
  {
    if s == [] then 0 else ValueIn(s[..|s| - 1], radix) * radix + DigitValue(s[|s| - 1])
  }

  /** 10 to the power k. */
  function Pow10(k: nat): (p: nat)
    ensures p >= 1
  {
    if k == 0 then 1 else 10 * Pow10(k - 1)
  }

  /** The radix named by the letter after a leading `0` (0x, 0o, 0b in either case). */
  function RadixOf(c: char): (r: Option<nat>)
    ensures r.Some? ==> r.value in {2, 8, 16}
  {
    if c == 'x' || c == 'X' then Some(16)
    else if c == 'o' || c == 'O' then Some(8)
    else if c == 'b' || c == 'B' then Some(2)
    else None
  }

  /** The first index of s holding a character of cs, or |s| when there is none. */
  function IndexOfAny(s: string, cs: set<char>): (k: nat)
    ensures k <= |s|
    ensures k < |s| ==> s[k] in cs
    ensures forall i :: 0 <= i < k ==> s[i] !in cs
  {
    if s == [] then 0
    else if s[0] in cs then 0
    else 1 + IndexOfAny(s[1..], cs)
  }

  /** SignedInteger of an exponent: an optional sign followed by at least one decimal digit. */
  function SignedInteger(s: string): (r: Option<int>)
  {
    if s != [] && (s[0] == '+' || s[0] == '-') then
      var rest := s[1..];
      if rest != [] && AllDigitsIn(rest, 10) then
        var magnitude: int := ValueIn(rest, 10);
        Some(if s[0] == '-' then -magnitude else magnitude)
      else None
    else if s != [] && AllDigitsIn(s, 10) then Some(ValueIn(s, 10))
    else None
  }

  /** The number m * 10^k, classified. */
  function Scaled(m: nat, k: int): (v: NumberValue)
    ensures v != NaN
  {
    if k >= 0 then IntVal(m * Pow10(k))
    else if m % Pow10(-k) == 0 then IntVal(m / Pow10(-k))
    else NonInteger
  }

  /**
   * StrUnsignedDecimalLiteral: `Infinity`, or digits with an optional
   * fraction and an optional exponent (`12`, `12.`, `.5`, `1.5e3`).
   */
  function UnsignedDecimal(u: string): NumberValue
  {
    if u == "Infinity" then NonInteger
    else
      var e := IndexOfAny(u, {'e', 'E'});
      var mantissa := u[..e];
      var exponent := if e == |u| then Some(0) else SignedInteger(u[e + 1..]);
      var d := IndexOfAny(mantissa, {'.'});
      var whole := mantissa[..d];
      var fraction := if d < |mantissa| then mantissa[d + 1..] else "";
      if exponent.None? || !AllDigitsIn(whole, 10) || !AllDigitsIn(fraction, 10) ||
         (whole == "" && fraction == "")
      then NaN
      else
        assert AllDigitsIn(whole + fraction, 10);
        Scaled(ValueIn(whole + fraction, 10), exponent.value - |fraction|)
  }

  /** JavaScript's `Number(s)` for a string s. */
  function StringToNumber(s: string): (v: NumberValue)
    ensures AllWhitespace(s) ==> v == IntVal(0)
    ensures Trim(s) in {"Infinity", "+Infinity", "-Infinity"} ==> v == NonInteger
  {
    TrimEmptyIffAllWhitespace(s);
    var t := Trim(s);
    if t == "" then IntVal(0)
    else if |t| >= 2 && t[0] == '0' && RadixOf(t[1]).Some? then
      var digits := t[2..];
      if digits != [] && AllDigitsIn(digits, RadixOf(t[1]).value)
      then IntVal(ValueIn(digits, RadixOf(t[1]).value))
      else NaN
    else if t[0] == '-' then Negate(UnsignedDecimal(t[1..]))
    else if t[0] == '+' then UnsignedDecimal(t[1..])
    else UnsignedDecimal(t)
  }

  /** Whitespace around the text never changes what `Number` makes of it. */
  lemma StringToNumberIgnoresSurroundingSpace(s: string)
    ensures StringToNumber(Trim(s)) == StringToNumber(s)
  {
    if Trim(s) != [] {
      TrimKeepsTrimmed(Trim(s));
    }
  }

  /** The decimal digit character for d. */
  function DigitChar(d: nat): (c: char)
    requires d < 10
    ensures DigitValue(c) == d
  {
    ('0' as int + d) as char
  }

  /** The decimal digits of n, without leading zeros (`String(n)` for a natural number). */
  function NatText(n: nat): (s: string)
    ensures s != [] && AllDigitsIn(s, 10)
    ensures ValueIn(s, 10) == n
    ensures s[0] == '0' <==> n == 0
    ensures n == 0 ==> s == "0"
    decreases n
  {
    if n < 10 then [DigitChar(n)]
    else
      var s := NatText(n / 10) + [DigitChar(n % 10)];
      assert s[..|s| - 1] == NatText(n / 10);
      s
  }

  /** `String(n)` for an integer n: a minus sign, when negative, then its digits. */
  function DecimalText(n: int): (s: string)
    ensures s != []
    ensures s[0] == '-' <==> n < 0
    ensures n < 0 ==> AllDigitsIn(s[1..], 10) && ValueIn(s[1..], 10) == -n
    ensures n >= 0 ==> AllDigitsIn(s, 10) && ValueIn(s, 10) == n
    ensures var d := if n < 0 then s[1..] else s; d != [] && (d[0] == '0' ==> d == "0")
  {
    if n < 0 then "-" + NatText(-n) else NatText(n)
  }

  /** Reading a run of decimal digits through UnsignedDecimal yields their value. */
  lemma UnsignedDigits(u: string)
    requires u != [] && AllDigitsIn(u, 10)
    ensures UnsignedDecimal(u) == IntVal(ValueIn(u, 10))
  {
    assert u != "Infinity" by { assert DigitValue(u[0]) < 10; }
    assert forall i :: 0 <= i < |u| ==> u[i] !in {'e', 'E', '.'} by {
      forall i | 0 <= i < |u| ensures u[i] !in {'e', 'E', '.'} {
        assert DigitValue(u[i]) < 10;
      }
    }
    var e := IndexOfAny(u, {'e', 'E'});
    assert e == |u|;
    var mantissa := u[..e];
    assert mantissa == u;
    var d := IndexOfAny(mantissa, {'.'});
    assert d == |mantissa|;
    assert mantissa[..d] + "" == u;
  }

  /** Integer text as `String(n)` writes it converts back to n. */
  lemma {:induction false} DecimalTextRoundTrip(n: int)
    ensures StringToNumber(DecimalText(n)) == IntVal(n)
  {
    var s := DecimalText(n);
    var digits := NatText(if n < 0 then -n else n);
    assert DigitValue(digits[0]) < 10 && DigitValue(digits[|digits| - 1]) < 10;
    assert s[|s| - 1] == digits[|digits| - 1];
    TrimKeepsTrimmed(s);
    UnsignedDigits(digits);
    if n < 0 {
      assert s[1..] == digits;
    }
  }

  /** Two runs of decimal digits concatenated are a run of decimal digits. */
  lemma DigitsConcat(a: string, b: string)
    requires AllDigitsIn(a, 10) && AllDigitsIn(b, 10)
    ensures AllDigitsIn(a + b, 10)
  {
    forall i | 0 <= i < |a + b| ensures DigitValue((a + b)[i]) < 10 {
      if i >= |a| { assert (a + b)[i] == b[i - |a|]; }
    }
  }

  /** Appending digits b to digits a shifts a left by |b| places. */
  lemma {:induction false} ValueInConcat(a: string, b: string)
    requires AllDigitsIn(a, 10) && AllDigitsIn(b, 10)
    ensures AllDigitsIn(a + b, 10)
    ensures ValueIn(a + b, 10) == ValueIn(a, 10) * Pow10(|b|) + ValueIn(b, 10)
  {
    DigitsConcat(a, b);
    if b == [] {
      assert a + b == a;
    } else {
      var b' := b[..|b| - 1];
      assert (a + b)[..|a + b| - 1] == a + b';
      assert (a + b)[|a + b| - 1] == b[|b| - 1];
      ValueInConcat(a, b');
      ShiftOneDigit(ValueIn(a, 10), Pow10(|b'|), ValueIn(b', 10), DigitValue(b[|b| - 1]),
                    ValueIn(a + b', 10), ValueIn(a + b, 10), ValueIn(b, 10), Pow10(|b|));
    }
  }

  /**
   * One more digit d on both sides of ab = x * p + y: the whole, the suffix
   * and the power all take one decimal place more.
   */
  lemma ShiftOneDigit(x: int, p: int, y: int, d: int, ab: int, abd: int, yd: int, p10: int)
    requires ab == x * p + y && abd == ab * 10 + d && yd == y * 10 + d && p10 == 10 * p
    ensures abd == x * p10 + yd
  {
  }

  /** A run of k decimal digits is worth less than 10^k. */
  lemma {:induction false} ValueInBound(b: string)
    requires AllDigitsIn(b, 10)
    ensures ValueIn(b, 10) < Pow10(|b|)
  {
    if b != [] {
      ValueInBound(b[..|b| - 1]);
    }
  }

  /** Division of a * p + b by p when 0 <= b < p. */
  lemma DivModOfShift(a: nat, p: nat, b: nat)
    requires b < p
    ensures (a * p + b) % p == b && (a * p + b) / p == a
  {
    var x := a * p + b;
    var q, r := x / p, x % p;
    assert q * p + r == a * p + b;
    assert (q - a) * p == b - r;
    MultipleInOpenInterval(q - a, p, b - r);
  }

  /** The only multiple of p strictly between -p and p is 0. */
  lemma MultipleInOpenInterval(k: int, p: int, d: int)
    requires k * p == d && -p < d < p
    ensures k == 0
  {
  }

  /** Text made of digits, a point and digits is read as an unsigned decimal literal. */
  lemma PointTextParse(whole: string, fraction: string)
    requires whole != [] && AllDigitsIn(whole, 10) && AllDigitsIn(fraction, 10)
    ensures AllDigitsIn(whole + fraction, 10)
    ensures StringToNumber(whole + "." + fraction) ==
              Scaled(ValueIn(whole + fraction, 10), -|fraction|)
  {
    ValueInConcat(whole, fraction);
    var t := whole + "." + fraction;
    assert DigitValue(t[0]) < 10;
    TrimKeepsTrimmed(t);
    assert Trim(t) == t;
    assert t[0] != '-' && t[0] != '+';
    assert RadixOf(t[1]).None? by {
      assert t[1] == '.' || DigitValue(t[1]) < 10;
    }
    assert StringToNumber(t) == UnsignedDecimal(t);
    PointTextMantissa(whole, fraction);
  }

  /** The mantissa of digits-point-digits splits at the point. */
  lemma PointTextMantissa(whole: string, fraction: string)
    requires whole != [] && AllDigitsIn(whole, 10) && AllDigitsIn(fraction, 10)
    ensures AllDigitsIn(whole + fraction, 10)
    ensures UnsignedDecimal(whole + "." + fraction) ==
              Scaled(ValueIn(whole + fraction, 10), -|fraction|)
  {
    ValueInConcat(whole, fraction);
    var t := whole + "." + fraction;
    assert forall i :: 0 <= i < |t| ==> t[i] !in {'e', 'E'} by {
      forall i | 0 <= i < |t| ensures t[i] !in {'e', 'E'} {
        assert t[i] == '.' || DigitValue(t[i]) < 10;
      }
    }
    assert t != "Infinity" by { assert DigitValue(t[0]) < 10; }
    var e := IndexOfAny(t, {'e', 'E'});
    assert e == |t|;
    assert t[..e] == t;
    var d := IndexOfAny(t, {'.'});
    assert d == |whole| by {
      assert t[|whole|] == '.';
      assert forall i :: 0 <= i < |whole| ==> t[i] == whole[i] && DigitValue(whole[i]) < 10;
    }
    assert t[..d] == whole && t[d + 1..] == fraction;
  }

  /**
   * Decimal text with a fraction (`12.5`, `90.0`, `7.`): it is an integer
   * exactly when every fraction digit is zero, and then it is the whole part.
   */
  lemma FractionText(whole: string, fraction: string)
    requires whole != [] && AllDigitsIn(whole, 10) && AllDigitsIn(fraction, 10)
    ensures StringToNumber(whole + "." + fraction) ==
              if ValueIn(fraction, 10) == 0 then IntVal(ValueIn(whole, 10)) else NonInteger
  {
    PointTextParse(whole, fraction);
    if fraction == [] {
      assert whole + fraction == whole;
    } else {
      ValueInConcat(whole, fraction);
      ValueInBound(fraction);
      FractionValue(ValueIn(whole, 10), ValueIn(fraction, 10), |fraction|, ValueIn(whole + fraction, 10));
    }
  }

  /** w followed by j fraction digits worth f, read as a number. */
  lemma FractionValue(w: nat, f: nat, j: nat, m: nat)
    requires j > 0 && f < Pow10(j) && m == w * Pow10(j) + f
    ensures Scaled(m, -(j as int)) == if f == 0 then IntVal(w) else NonInteger
  {
    DivModOfShift(w, Pow10(j), f);
    ScaledBelowOne(m, j);
  }

  /** Scaling by a negative power of ten is an integer exactly when the division is exact. */
  lemma ScaledBelowOne(m: nat, j: nat)
    requires j > 0
    ensures Scaled(m, -(j as int)) == if m % Pow10(j) == 0 then IntVal(m / Pow10(j)) else NonInteger
  {
  }
}
