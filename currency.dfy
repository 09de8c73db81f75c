/** The currency clean-up of a valuation cell: every character that is not a
    digit or a decimal point is removed, and what is left goes through
    JavaScript's `Number` conversion (index.js:63). */
module Currency {
  import opened Values

  /** The characters the clean-up keeps: the regular expression `[^0-9\.]+`
      matches every other character. */
  predicate Kept(c: char) {
    IsDigit(c) || c == '.'
  }

  predicate AllKept(s: string) {
    forall i :: 0 <= i < |s| ==> Kept(s[i])
  }

  /** `s` with every character that is not a digit or `.` removed. */
  function Clean(s: string): (r: string)
    ensures AllKept(r) && |r| <= |s|
  {
    if s == [] then []
    else (if Kept(s[0]) then [s[0]] else []) + Clean(s[1..])
  }

  /** Cleaning works character by character: cleaning a concatenation is
      concatenating the cleaned parts, so the kept characters stay in their
      original order. */
  lemma {:induction false} CleanAppend(a: string, b: string)
    ensures Clean(a + b) == Clean(a) + Clean(b)
  {
    if a != [] {
      assert (a + b)[1..] == a[1..] + b;
      CleanAppend(a[1..], b);
    } else {
      assert a + b == b;
    }
  }

  /** A string made only of digits and points is left as it is. */
  lemma {:induction false} CleanKeepsKept(s: string)
    requires AllKept(s)
    ensures Clean(s) == s
  {
    if s != [] {
      CleanKeepsKept(s[1..]);
    }
  }

  lemma CleanIdempotent(s: string)
    ensures Clean(Clean(s)) == Clean(s)
  {
    CleanKeepsKept(Clean(s));
  }

  /** A character survives the clean-up exactly when it is kept and present. */
  lemma {:induction false} CleanMembers(s: string, c: char)
    ensures c in Clean(s) <==> Kept(c) && c in s
  {
    if s != [] {
      CleanMembers(s[1..], c);
      assert s == [s[0]] + s[1..];
    }
  }

  /** JavaScript's `Number` on a string of digits and points: the empty
      string is 0, a string with no point is an integer, a string with one
      point that has a digit on at least one side is a decimal (`5.` and `.5`
      included), and anything else (`.`, two points) is `NaN`. */
  function NumberOf(t: string): (v: Value)
    requires AllKept(t)
    ensures v.Num? || v.NaN?
    ensures v.Num? ==> Canonical(v.n)
  {
    if '.' !in t then
      Num(Decimal(DigitsValue(t), []))
    else
      var p := IndexOf(t, '.');
      var left, right := t[..p], t[p + 1..];
      if '.' in right || (left == [] && right == []) then NaN
      else Num(Canon(Decimal(DigitsValue(left), DigitsOf(right))))
  }

  /** The number read from a currency-formatted cell. */
  function CurrencyNumber(s: string): (r: Value)
    ensures r.Num? || r.NaN?
    ensures r.Num? ==> Canonical(r.n)
  {
    NumberOf(Clean(s))
  }

  lemma NumberOfNaNIff(t: string)
    requires AllKept(t)
    ensures NumberOf(t).NaN? <==> t == "." || multiset(t)['.'] >= 2
  {
    if '.' in t {
      var p := IndexOf(t, '.');
      var left, right := t[..p], t[p + 1..];
      assert t == left + ['.'] + right;
      assert multiset(t)['.'] == multiset(left)['.'] + 1 + multiset(right)['.'];
      assert multiset(left)['.'] == 0;
      assert '.' in right <==> multiset(right)['.'] > 0;
      if left == [] && right == [] {
        assert t == ".";
      }
    } else {
      assert multiset(t)['.'] == 0;
    }
  }

  /** The cleaned text has two or more points, or is a lone point, exactly
      when the cell reads as `NaN`. */
  lemma CurrencyNaNIff(s: string)
    ensures CurrencyNumber(s).NaN? <==> Clean(s) == "." || multiset(Clean(s))['.'] >= 2
  {
    NumberOfNaNIff(Clean(s));
  }

  /** A cell with no digit and no point, `"$"` or the empty text, reads as 0
      rather than as a missing value. */
  lemma {:induction false} NoDigitsReadsZero(s: string)
    requires forall i :: 0 <= i < |s| ==> !Kept(s[i])
    ensures Clean(s) == ""
    ensures CurrencyNumber(s) == Num(Decimal(0, []))
  {
    if s != [] {
      NoDigitsReadsZero(s[1..]);
    }
  }

  /** A cell whose kept characters are all digits reads as the integer they
      spell. */
  lemma CurrencyInteger(s: string)
    requires AllDigits(Clean(s))
    ensures CurrencyNumber(s) == Num(Decimal(DigitsValue(Clean(s)), []))
  {
  }

  lemma DigitsHaveNoPoint(s: string)
    requires AllDigits(s)
    ensures '.' !in s
  {
  }

  /** The text `w.f` of two digit strings is digits and one point, and
      `Number` reads it as the decimal with those parts. */
  lemma NumberOfPointText(w: string, f: string)
    requires AllDigits(w) && AllDigits(f) && f != []
    ensures AllKept(w + ['.'] + f)
    ensures NumberOf(w + ['.'] + f) == Num(Canon(Decimal(DigitsValue(w), DigitsOf(f))))
  {
    var t := w + ['.'] + f;
    forall i | 0 <= i < |t| ensures Kept(t[i]) {
      if i < |w| { assert t[i] == w[i]; }
      else if i > |w| { assert t[i] == f[i - |w| - 1]; }
    }
    DigitsHaveNoPoint(w);
    DigitsHaveNoPoint(f);
    IndexOfAfter(w, '.', f);
    assert t[..|w|] == w;
    assert t[|w| + 1..] == f;
  }

  /** `Number` reads the text of a number back as that number. */
  lemma NumberOfDecimalText(d: Decimal)
    ensures AllKept(DecimalText(d))
    ensures NumberOf(DecimalText(d)) == Num(Canon(d))
  {
    var c := Canon(d);
    var w := NatText(c.whole);
    NatTextValue(c.whole);
    DigitsHaveNoPoint(w);
    if c.frac != [] {
      var f := DigitsText(c.frac);
      assert DecimalText(d) == w + ['.'] + f;
      NumberOfPointText(w, f);
      DigitsOfText(c.frac);
      assert Canon(Decimal(c.whole, c.frac)) == c;
    } else {
      assert DecimalText(d) == w;
    }
  }

  /** Reading back the text of a number gives the same number, also when the
      text carries a currency sign in front; formatting is all the clean-up
      removes. */
  lemma CurrencyReadsBackText(d: Decimal, prefix: string)
    requires forall i :: 0 <= i < |prefix| ==> !Kept(prefix[i])
    ensures CurrencyNumber(prefix + DecimalText(d)) == Num(Canon(d))
  {
    NoDigitsReadsZero(prefix);
    CleanAppend(prefix, DecimalText(d));
    NumberOfDecimalText(d);
    CleanKeepsKept(DecimalText(d));
    assert Clean(prefix + DecimalText(d)) == DecimalText(d);
  }
}
