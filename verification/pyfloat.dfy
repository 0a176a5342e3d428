/** Python's `float()` on text and `int()` of the float, as far as the GPS
    driver uses them: the value is kept as an exact decimal, so rounding
    to binary64 is not part of this model.
 */
module PyFloat {
  import opened Wrappers
  import opened PyText

  /** A value `float()` can return: the finite decimal `mant * 10^exp`,
      an infinity, or NaN. */
  datatype Float = Finite(mant: int, exp: int) | Inf(negative: bool) | NaN

  function Pow10(n: nat): (r: nat)
    ensures r >= 1
  {
    if n == 0 then 1 else 10 * Pow10(n - 1)
  }

  predicate IsDecimal(c: char) {
    '0' <= c <= '9'
  }

  predicate AllDigits(s: string) {
    forall i :: 0 <= i < |s| ==> IsDecimal(s[i])
  }

  /** The value of a run of decimal digits. */
  function Value(s: string): nat
    requires AllDigits(s)
  {
    assert forall i :: 0 <= i < |s| ==> IsDigitIn(s[i], 10);
    DigitsValue(s, 10)
  }

  /** The digits of `ip.fp` read as one integer. */
  function Digits(ip: string, fp: string): (r: nat)
    requires AllDigits(ip) && AllDigits(fp)
  {
    assert forall i :: 0 <= i < |ip + fp| ==> (ip + fp)[i] == if i < |ip| then ip[i] else fp[i - |ip|];
    Value(ip + fp)
  }

  /** A decimal numeral without sign, lower-cased: digits with an optional
      fraction (at least one digit in all) and an optional exponent `e`
      with its own sign. The value as (digits, power of ten), or None. */
  function DecimalValue(w: string): Option<(nat, int)> {
    var k := IndexOf(w, 'e');
    var mantissa := if k < 0 then w else w[..k];
    var exponent := if k < 0 then Some(0) else ParseNumeral(w[k + 1..], 10);
    var d := IndexOf(mantissa, '.');
    var ip := if d < 0 then mantissa else mantissa[..d];
    var fp := if d < 0 then "" else mantissa[d + 1..];
    if |ip| + |fp| == 0 || !AllDigits(ip) || !AllDigits(fp) || exponent.None? then None
    else Some((Digits(ip, fp), exponent.value - |fp|))
  }

  /** `float(s)`: white space around the text is ignored, one sign is
      allowed, `inf`, `infinity` and `nan` in any case are accepted;
      anything else that is not a decimal numeral is a ValueError (None). */
  function ParseFloat(s: string): (r: Option<Float>)
    ensures StripStr(s) == [] ==> r.None?
    ensures r.Some? && r.value.Finite? && r.value.mant != 0 ==> (r.value.mant < 0 <==> StripStr(s)[0] == '-')
    ensures r.Some? && r.value.Inf? ==> (r.value.negative <==> StripStr(s)[0] == '-')
  {
    var t := StripStr(s);
    var neg := |t| > 0 && t[0] == '-';
    var u := if |t| > 0 && (t[0] == '-' || t[0] == '+') then t[1..] else t;
    var w := Lower(u);
    if w == "inf" || w == "infinity" then Some(Inf(neg))
    else if w == "nan" then Some(NaN)
    else
      match DecimalValue(w)
      case None => None
      case Some((m, e)) => Some(Finite(if neg then -(m as int) else m as int, e))
  }

  /** Division of integers rounded toward zero. */
  function TruncDiv(a: int, b: nat): (q: int)
    requires b > 0
    ensures a >= 0 ==> q >= 0 && q * b <= a < q * b + b
    ensures a < 0 ==> q <= 0 && q * b - b < a <= q * b
  {
    if a >= 0 then
      DivBounds(a, b);
      a / b
    else
      DivBounds(-a, b);
      NegProduct((-a) / b, b);
      -((-a) / b)
  }

  /** Euclidean division of a natural number leaves a remainder below
      the divisor. */
  lemma DivBounds(a: nat, b: nat)
    requires b > 0
    ensures a / b >= 0 && (a / b) * b <= a < (a / b) * b + b
  {
    assert a == (a / b) * b + a % b;
  }

  lemma NegProduct(n: int, b: int)
    ensures (-n) * b == -(n * b)
  {
  }

  /** `int(x)` for a float `x`: the value rounded toward zero; an infinity
      overflows and NaN is a ValueError. */
  function IntOfFloat(x: Float): (r: Result<int>)
    ensures r.Err? <==> !x.Finite?
    ensures x.Finite? && x.exp >= 0 ==> r == Ok(x.mant * Pow10(x.exp))
    ensures x.Finite? && x.exp < 0 ==> r == Ok(TruncDiv(x.mant, Pow10(-x.exp)))
  {
    match x
    case Finite(m, e) => Ok(if e >= 0 then m * Pow10(e) else TruncDiv(m, Pow10(-e)))
    case Inf(_) => Err(OverflowError)
    case NaN => Err(ValueError)
  }

  /** `n` digits are worth less than `10^n`. */
  lemma {:induction false} ValueBound(b: string)
    requires AllDigits(b)
    ensures Value(b) < Pow10(|b|)
    decreases |b|
  {
    if |b| > 0 {
      var init := b[..|b| - 1];
      assert AllDigits(init) by {
        forall i | 0 <= i < |init| ensures IsDecimal(init[i]) { assert init[i] == b[i]; }
      }
      ValueBound(init);
      assert IsDecimal(b[|b| - 1]);
      assert Value(b) == Value(init) * 10 + DigitValue(b[|b| - 1]);
      assert Value(init) + 1 <= Pow10(|init|);
    }
  }

  /** A run of digits with a fraction reads as its exact value, and
      `int()` of it drops the fraction. */
  lemma FloatOfDecimal(ip: string, fp: string)
    requires AllDigits(ip) && AllDigits(fp) && |ip| > 0
    ensures ParseFloat(ip + "." + fp) == Some(Finite(Digits(ip, fp), -|fp|))
    ensures IntOfFloat(Finite(Digits(ip, fp), -|fp|)) == Ok(Value(ip))
  {
    ReadDecimal(ip, fp);
    DropFraction(ip, fp);
  }

  lemma ReadDecimal(ip: string, fp: string)
    requires AllDigits(ip) && AllDigits(fp) && |ip| > 0
    ensures ParseFloat(ip + "." + fp) == Some(Finite(Digits(ip, fp), -|fp|))
  {
    DecimalNumeral(ip, fp);
    DecimalValueOf(ip, fp);
    ParsePlain(ip + "." + fp);
  }

  /** A run of digits reads as its value. */
  lemma FloatOfDigits(ip: string)
    requires AllDigits(ip) && |ip| > 0
    ensures ParseFloat(ip) == Some(Finite(Value(ip), 0))
    ensures IntOfFloat(Finite(Value(ip), 0)) == Ok(Value(ip))
  {
    NumeralText(ip);
    assert DecimalValue(ip) == Some((Value(ip), 0)) by {
      assert IndexOf(ip, '.') < 0 by {
        assert forall i :: 0 <= i < |ip| ==> ip[i] != '.';
      }
      assert ip + "" == ip;
    }
    ParsePlain(ip);
  }

  /** Unsigned text that is its own strip and lower case and not a name
      reads as its decimal value. */
  lemma ParsePlain(s: string)
    requires Plain(s) && DecimalValue(s).Some?
    ensures ParseFloat(s) == Some(Finite(DecimalValue(s).value.0, DecimalValue(s).value.1))
  {
  }

  /** Text that strip and lower leave alone, with no sign and not a name. */
  predicate Plain(s: string) {
    && StripStr(s) == s && Lower(s) == s && |s| > 0 && s[0] != '-' && s[0] != '+'
    && s != "inf" && s != "infinity" && s != "nan"
  }

  /** `int()` drops the fraction digits. */
  lemma DropFraction(ip: string, fp: string)
    requires AllDigits(ip) && AllDigits(fp)
    ensures IntOfFloat(Finite(Digits(ip, fp), -|fp|)) == Ok(Value(ip))
  {
    ValueConcat(ip, fp);
    if |fp| > 0 {
      ValueBound(fp);
      DivUnique(Digits(ip, fp), Pow10(|fp|), Value(ip), Value(fp));
    } else {
      assert Value(fp) == 0;
    }
  }

  /** Digits written after others shift them up by their count. */
  lemma {:induction false} ValueConcat(a: string, b: string)
    requires AllDigits(a) && AllDigits(b)
    ensures Digits(a, b) == Value(a) * Pow10(|b|) + Value(b)
    decreases |b|
  {
    if |b| == 0 {
      assert a + b == a;
    } else {
      var init := b[..|b| - 1];
      assert AllDigits(init) by {
        forall i | 0 <= i < |init| ensures IsDecimal(init[i]) { assert init[i] == b[i]; }
      }
      ValueConcat(a, init);
      var ab := a + b;
      assert ab[..|ab| - 1] == a + init;
      assert ab[|ab| - 1] == b[|b| - 1];
      assert Digits(a, b) == Digits(a, init) * 10 + DigitValue(b[|b| - 1]);
      assert Value(b) == Value(init) * 10 + DigitValue(b[|b| - 1]);
      calc {
        Digits(a, init) * 10;
        (Value(a) * Pow10(|init|) + Value(init)) * 10;
        Value(a) * (Pow10(|init|) * 10) + Value(init) * 10;
      }
    }
  }

  /** Text of digits and points that starts with a digit is
      unchanged by strip and lower and has no sign, exponent or name. */
  lemma NumeralText(s: string)
    requires |s| > 0 && IsDecimal(s[0])
    requires forall i :: 0 <= i < |s| ==> IsDecimal(s[i]) || s[i] == '.'
    ensures StripStr(s) == s && Lower(s) == s && IndexOf(s, 'e') < 0
    ensures s != "inf" && s != "infinity" && s != "nan"
    ensures s[0] != '-' && s[0] != '+'
  {
    NumeralStrip(s);
    NumeralLower(s);
  }

  lemma NumeralStrip(s: string)
    requires |s| > 0 && IsDecimal(s[0]) && (IsDecimal(s[|s| - 1]) || s[|s| - 1] == '.')
    ensures StripStr(s) == s
  {
    StripNoSpaceEnds(s, IsStrSpace);
  }

  lemma NumeralLower(s: string)
    requires forall i :: 0 <= i < |s| ==> IsDecimal(s[i]) || s[i] == '.'
    ensures Lower(s) == s && 'e' !in s
  {
  }

  /** The numeral `ip.fp` has the value of its digits over `10^|fp|`. */
  lemma DecimalValueOf(ip: string, fp: string)
    requires AllDigits(ip) && AllDigits(fp) && |ip| > 0
    ensures DecimalValue(ip + "." + fp) == Some((Digits(ip, fp), -|fp|))
  {
    var s := ip + "." + fp;
    assert IndexOf(s, 'e') < 0 by {
      DecimalNumeral(ip, fp);
    }
    assert IndexOf(s, '.') == |ip| && s[..|ip|] == ip && s[|ip| + 1..] == fp by {
      assert '.' !in ip by {
        forall i | 0 <= i < |ip| ensures ip[i] != '.' { assert IsDecimal(ip[i]); }
      }
      IndexOfFirst(ip, '.', fp);
      assert s == ip + ['.'] + fp;
    }
    DecimalValueAt(s, |ip|);
  }

  /** A numeral without exponent splits at its point. */
  lemma DecimalValueAt(w: string, d: nat)
    requires IndexOf(w, 'e') < 0 && IndexOf(w, '.') == d
    ensures var ip := w[..d]; var fp := w[d + 1..];
            DecimalValue(w) == if |ip| + |fp| == 0 || !AllDigits(ip) || !AllDigits(fp) then None
                               else Some((Digits(ip, fp), -|fp|))
  {
  }

  /** The numeral `ip.fp` is plain: no padding, capitals, sign, exponent
      or name. */
  lemma DecimalNumeral(ip: string, fp: string)
    requires AllDigits(ip) && AllDigits(fp) && |ip| > 0
    ensures Plain(ip + "." + fp) && IndexOf(ip + "." + fp, 'e') < 0
  {
    var s := ip + "." + fp;
    assert forall i :: 0 <= i < |s| ==> IsDecimal(s[i]) || s[i] == '.' by {
      forall i | 0 <= i < |s| ensures IsDecimal(s[i]) || s[i] == '.' {
        if i < |ip| { assert s[i] == ip[i]; }
        else if i > |ip| { assert s[i] == fp[i - |ip| - 1]; }
      }
    }
    NumeralText(s);
  }

  /** The quotient is the one the remainder is below the divisor for. */
  lemma DivUnique(v: nat, b: nat, q: nat, r: nat)
    requires b > 0 && r < b && v == q * b + r
    ensures v / b == q && TruncDiv(v, b) == q
  {
    var q' := v / b;
    if q > q' {
      MulAtLeast(q - q', b);
    } else if q < q' {
      MulAtLeast(q' - q, b);
    }
  }

  lemma MulAtLeast(d: int, b: int)
    requires d >= 1 && b >= 1
    ensures d * b >= b
  {
    NonNegProduct(d - 1, b);
  }
}
