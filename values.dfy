/** JavaScript values as the comparison code sees them: the text read from a
    page, the numbers made from it, `undefined` for a missing property, and
    `NaN`; with strict equality (`===`) and the string conversion that
    `Array.prototype.join` applies to each element. */
module Values {

  datatype Option<T> = None | Some(value: T)

  datatype Result<T, E> = Ok(value: T) | Err(error: E)

  type Digit = d: nat | d < 10

  /** A non-negative decimal number `whole.frac`; only numbers of this shape
      can come out of the currency parser, which drops signs and exponents. */
  datatype Decimal = Decimal(whole: nat, frac: seq<Digit>)

  datatype Value = Undefined | Str(s: string) | Num(n: Decimal) | NaN

  predicate IsDigit(c: char) {
    '0' <= c <= '9'
  }

  predicate AllDigits(s: string) {
    forall i :: 0 <= i < |s| ==> IsDigit(s[i])
  }

  function DigitChar(d: Digit): (c: char)
    ensures IsDigit(c)
  {
    ['0', '1', '2', '3', '4', '5', '6', '7', '8', '9'][d]
  }

  function CharDigit(c: char): (d: Digit)
    requires IsDigit(c)
    ensures DigitChar(d) == c
  {
    if c == '0' then 0 else if c == '1' then 1 else if c == '2' then 2
    else if c == '3' then 3 else if c == '4' then 4 else if c == '5' then 5
    else if c == '6' then 6 else if c == '7' then 7 else if c == '8' then 8
    else 9
  }

  /** The value of a string of decimal digits; the empty string is 0, as
      `Number("")` is. */
  function DigitsValue(s: string): (n: nat)
    requires AllDigits(s)
    ensures n < Pow10(|s|)
  {
    if s == [] then 0 else DigitsValue(s[..|s| - 1]) * 10 + CharDigit(s[|s| - 1])
  }

  /** The digits of a string of decimal digits, in order. */
  function DigitsOf(s: string): (r: seq<Digit>)
    requires AllDigits(s)
    ensures |r| == |s|
    ensures forall i :: 0 <= i < |s| ==> DigitChar(r[i]) == s[i]
  {
    if s == [] then [] else [CharDigit(s[0])] + DigitsOf(s[1..])
  }

  /** The text of a sequence of digits. */
  function DigitsText(f: seq<Digit>): (s: string)
    ensures |s| == |f| && AllDigits(s)
    ensures forall i :: 0 <= i < |f| ==> s[i] == DigitChar(f[i])
  {
    if f == [] then [] else [DigitChar(f[0])] + DigitsText(f[1..])
  }

  /** The decimal text of a natural number, as `String(n)` gives it. */
  function NatText(n: nat): (s: string)
    ensures |s| > 0 && AllDigits(s)
  {
    if n < 10 then [DigitChar(n)] else NatText(n / 10) + [DigitChar(n % 10)]
  }

  lemma {:induction false} NatTextValue(n: nat)
    ensures DigitsValue(NatText(n)) == n
  {
    var s := NatText(n);
    if n < 10 {
      assert s[..|s| - 1] == [];
    } else {
      NatTextValue(n / 10);
      assert s[..|s| - 1] == NatText(n / 10);
    }
  }

  lemma {:induction false} DigitsOfText(f: seq<Digit>)
    ensures DigitsOf(DigitsText(f)) == f
  {
    if f != [] {
      DigitsOfText(f[1..]);
      assert DigitsText(f)[1..] == DigitsText(f[1..]);
    }
  }

  /** `f` with its trailing zero digits removed. */
  function TrimZeros(f: seq<Digit>): (r: seq<Digit>)
    ensures |r| <= |f| && r == f[..|r|]
    ensures r == [] || r[|r| - 1] != 0
    ensures forall i :: |r| <= i < |f| ==> f[i] == 0
  {
    if f == [] then []
    else if f[|f| - 1] == 0 then TrimZeros(f[..|f| - 1])
    else f
  }

  predicate Canonical(d: Decimal) {
    d.frac == [] || d.frac[|d.frac| - 1] != 0
  }

  /** The canonical spelling of `d`: `1.50` and `1.5` are the same number. */
  function Canon(d: Decimal): (c: Decimal)
    ensures Canonical(c) && c.whole == d.whole
    ensures Canonical(d) ==> c == d
  {
    Decimal(d.whole, TrimZeros(d.frac))
  }

  /** Ten to the power `k`. */
  function Pow10(k: nat): (p: nat)
    ensures p >= 1
  {
    if k == 0 then 1 else 10 * Pow10(k - 1)
  }

  /** The fraction digits `f` read as the integer numerator over 10^|f|. */
  function FracNumerator(f: seq<Digit>): nat {
    if f == [] then 0 else FracNumerator(f[..|f| - 1]) * 10 + f[|f| - 1]
  }

  /** The exact numeric value of a decimal, as a real number. */
  function RealValue(d: Decimal): real {
    d.whole as real + (FracNumerator(d.frac) as real) / (Pow10(|d.frac|) as real)
  }

  lemma {:induction false} TrailingZeroSameValue(f: seq<Digit>)
    requires f != [] && f[|f| - 1] == 0
    ensures (FracNumerator(f) as real) / (Pow10(|f|) as real)
         == (FracNumerator(f[..|f| - 1]) as real) / (Pow10(|f| - 1) as real)
  {
    var n := FracNumerator(f[..|f| - 1]) as real;
    var p := Pow10(|f| - 1) as real;
    assert FracNumerator(f) as real == n * 10.0;
    assert Pow10(|f|) as real == p * 10.0;
    assert (n * 10.0) / (p * 10.0) == n / p;
  }

  lemma {:induction false} TrimZerosSameValue(f: seq<Digit>)
    ensures (FracNumerator(TrimZeros(f)) as real) / (Pow10(|TrimZeros(f)|) as real)
         == (FracNumerator(f) as real) / (Pow10(|f|) as real)
  {
    if f != [] && f[|f| - 1] == 0 {
      TrimZerosSameValue(f[..|f| - 1]);
      TrailingZeroSameValue(f);
    }
  }

  /** Comparing canonical spellings compares numbers: two decimals with the
      same canonical spelling have the same exact value. */
  lemma CanonSameValue(a: Decimal, b: Decimal)
    requires Canon(a) == Canon(b)
    ensures RealValue(a) == RealValue(b)
  {
    TrimZerosSameValue(a.frac);
    TrimZerosSameValue(b.frac);
  }

  lemma {:induction false} FracNumeratorBound(f: seq<Digit>)
    ensures FracNumerator(f) < Pow10(|f|)
  {
    if f != [] {
      FracNumeratorBound(f[..|f| - 1]);
    }
  }

  lemma {:induction false} FracNumeratorInjective(f: seq<Digit>, g: seq<Digit>)
    requires |f| == |g| && FracNumerator(f) == FracNumerator(g)
    ensures f == g
  {
    if f != [] {
      var n := |f| - 1;
      var x, y := FracNumerator(f[..n]), FracNumerator(g[..n]);
      assert (x * 10 + f[n]) % 10 == f[n] && (x * 10 + f[n]) / 10 == x;
      assert (y * 10 + g[n]) % 10 == g[n] && (y * 10 + g[n]) / 10 == y;
      FracNumeratorInjective(f[..n], g[..n]);
      assert f == f[..n] + [f[n]] && g == g[..n] + [g[n]];
    }
  }

  lemma {:induction false} Pow10Add(i: nat, j: nat)
    ensures Pow10(i + j) == Pow10(i) * Pow10(j)
  {
    if j > 0 {
      Pow10Add(i, j - 1);
      assert Pow10(i + j) == 10 * Pow10(i + (j - 1));
    }
  }

  lemma DivModTen(x: nat, d: nat)
    requires d < 10
    ensures (x * 10 + d) % 10 == d && (x * 10 + d) / 10 == x
  {
  }

  /** The last digit of a fraction is its numerator modulo ten. */
  lemma LastDigit(f: seq<Digit>)
    requires f != []
    ensures FracNumerator(f) % 10 == f[|f| - 1]
  {
    var x := FracNumerator(f[..|f| - 1]);
    assert FracNumerator(f) == x * 10 + f[|f| - 1];
    DivModTen(x, f[|f| - 1]);
  }

  /** Dividing out the common factor of a cross-multiplied equation. */
  lemma Unscale(nf: nat, ng: nat, pf: nat, pd: nat, pg: nat)
    requires pf > 0 && pg == pf * pd && nf * pg == ng * pf
    ensures nf * pd == ng
  {
    assert nf * pg == (nf * pd) * pf;
  }

  /** A numerator scaled by a positive power of ten ends in the digit 0. */
  lemma ScaledEndsInZero(n: nat, d: nat)
    requires d > 0
    ensures (n * Pow10(d)) % 10 == 0
  {
    var r := n * Pow10(d - 1);
    assert n * Pow10(d) == r * 10;
    DivModTen(r, 0);
  }

  /** Two fractions without trailing zeros whose numerators agree once
      scaled to a common denominator are the same digits. */
  lemma ScaledFractionsEqual(f: seq<Digit>, g: seq<Digit>)
    requires f == [] || f[|f| - 1] != 0
    requires g == [] || g[|g| - 1] != 0
    requires |f| <= |g|
    requires FracNumerator(f) * Pow10(|g|) == FracNumerator(g) * Pow10(|f|)
    ensures f == g
  {
    var nf, ng := FracNumerator(f), FracNumerator(g);
    var d := |g| - |f|;
    Pow10Add(|f|, d);
    Unscale(nf, ng, Pow10(|f|), Pow10(d), Pow10(|g|));
    if d > 0 {
      ScaledEndsInZero(nf, d);
      LastDigit(g);
    }
    FracNumeratorInjective(f, g);
  }

  lemma QuotientBelowOne(n: nat, p: nat)
    requires n < p
    ensures 0.0 <= (n as real) / (p as real) < 1.0
  {
  }

  lemma CrossMultiply(n: nat, p: nat, m: nat, q: nat)
    requires p > 0 && q > 0
    requires (n as real) / (p as real) == (m as real) / (q as real)
    ensures n * q == m * p
  {
    var x := (n as real) / (p as real);
    assert x * (p as real) == n as real;
    assert x * (q as real) == m as real;
    assert (n * q) as real == x * (p as real) * (q as real);
    assert (m * p) as real == x * (q as real) * (p as real);
  }

  /** Canonical spellings are unique: two canonical decimals with the same
      value are the same decimal. */
  lemma CanonicalSameValue(a: Decimal, b: Decimal)
    requires Canonical(a) && Canonical(b)
    requires RealValue(a) == RealValue(b)
    ensures a == b
  {
    var na, pa := FracNumerator(a.frac), Pow10(|a.frac|);
    var nb, pb := FracNumerator(b.frac), Pow10(|b.frac|);
    FracNumeratorBound(a.frac);
    FracNumeratorBound(b.frac);
    QuotientBelowOne(na, pa);
    QuotientBelowOne(nb, pb);
    assert a.whole == b.whole;
    CrossMultiply(na, pa, nb, pb);
    if |a.frac| <= |b.frac| {
      ScaledFractionsEqual(a.frac, b.frac);
    } else {
      ScaledFractionsEqual(b.frac, a.frac);
    }
  }

  /** The converse of `CanonSameValue`: two decimals with the same exact
      value have the same canonical spelling, so comparing canonical
      spellings is exactly comparing numbers. */
  lemma SameValueCanon(a: Decimal, b: Decimal)
    requires RealValue(a) == RealValue(b)
    ensures Canon(a) == Canon(b)
  {
    TrimZerosSameValue(a.frac);
    TrimZerosSameValue(b.frac);
    CanonicalSameValue(Canon(a), Canon(b));
  }

  /** JavaScript's `===` on the values the comparison code meets: numbers
      compare by value, `NaN` equals nothing, values of different types are
      never equal. */
  predicate StrictEq(a: Value, b: Value)
    ensures StrictEq(a, b) ==> !a.NaN? && !b.NaN?
    ensures StrictEq(a, b) ==> a.Undefined? == b.Undefined? && a.Str? == b.Str? && a.Num? == b.Num?
  {
    match (a, b)
    case (Undefined, Undefined) => true
    case (Str(x), Str(y)) => x == y
    case (Num(x), Num(y)) => Canon(x) == Canon(y)
    case _ => false
  }

  lemma StrictEqReflexive(a: Value)
    ensures StrictEq(a, a) <==> !a.NaN?
  {
  }

  /** Two numbers are strictly equal exactly when they are the same number. */
  lemma StrictEqNumbers(x: Decimal, y: Decimal)
    ensures StrictEq(Num(x), Num(y)) <==> RealValue(x) == RealValue(y)
  {
    if Canon(x) == Canon(y) {
      CanonSameValue(x, y);
    }
    if RealValue(x) == RealValue(y) {
      SameValueCanon(x, y);
    }
  }

  /** The text of a number, as `String(x)` gives it for zero and for numbers
      from 1e-6 up to, not including, 1e21 (outside that range JavaScript
      writes an exponent): the whole part, then `.` and the fraction digits if
      any remain once the trailing zeros are gone. */
  function DecimalText(d: Decimal): (r: string)
    ensures |r| > 0 && IsDigit(r[0])
    ensures forall i :: 0 <= i < |r| ==> IsDigit(r[i]) || r[i] == '.'
    ensures AllDigits(r) <==> Canon(d).frac == []
  {
    var c := Canon(d);
    var w := NatText(c.whole);
    if c.frac == [] then w
    else
      var r := w + "." + DigitsText(c.frac);
      assert r[|w|] == '.';
      r
  }

  /** The text `join` writes for a value: nothing for `undefined`. */
  function ValueText(v: Value): (r: string)
    ensures v.Undefined? ==> r == ""
    ensures v.Num? ==> |r| > 0 && forall i :: 0 <= i < |r| ==> IsDigit(r[i]) || r[i] == '.'
  {
    match v
    case Undefined => ""
    case Str(s) => s
    case Num(d) => DecimalText(d)
    case NaN => "NaN"
  }

  /** The text `join` writes for a flag. It holds neither the separator nor
      a line break, so a flag stays one cell of its line. */
  function BoolText(b: bool): (r: string)
    ensures |r| > 0 && ',' !in r && '\n' !in r
  {
    if b then "true" else "false"
  }

  /** The two flags are written differently, so a line's flag can be read
      back. */
  lemma BoolTextDistinct()
    ensures BoolText(true) != BoolText(false)
  {
    assert |BoolText(true)| != |BoolText(false)|;
  }

  /** The first index of `c` in `s`. */
  function IndexOf<T(==)>(s: seq<T>, c: T): (i: nat)
    requires c in s
    ensures i < |s| && s[i] == c && c !in s[..i]
  {
    if s[0] == c then 0 else 1 + IndexOf(s[1..], c)
  }

  lemma {:induction false} IndexOfAfter<T>(a: seq<T>, c: T, b: seq<T>)
    requires c !in a
    ensures IndexOf(a + [c] + b, c) == |a|
  {
    if a != [] {
      assert (a + [c] + b)[1..] == a[1..] + [c] + b;
      IndexOfAfter(a[1..], c, b);
    }
  }
}
