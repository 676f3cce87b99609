/**
 Decimal numbers in every form that the readers of `lib/args.cc` take: with a sign, underscores
 between digits, a decimal point anywhere and an exponent.
 */
module Exponents {
  import opened Widths
  import opened NumberArg
  import opened Decimal
  import opened NumberText
  import opened DecimalText
  import FixedPoint
  import Real10

  // A number without its exponent.
  datatype Written = Written(sign: string, a: seq<nat>, aBars: seq<bool>, point: bool, c: seq<nat>, cBars: seq<bool>)

  ghost predicate IsNumber(x: Written, isSigned: bool) {
    && (|x.sign| == 0 || x.sign == ['+'] || (isSigned && x.sign == ['-']))
    && AreDigits(x.a) && AreDigits(x.c) && |x.aBars| == |x.a| && |x.cBars| == |x.c| && |x.a| + |x.c| > 0
    && (!x.point ==> |x.c| == 0) && (x.point ==> !EndsBarred(x.aBars))
  }

  function Integral(x: Written): string
    requires AreDigits(x.a) && |x.aBars| == |x.a|
  {
    Underscored(Show(x.a), x.aBars)
  }

  function Fractional(x: Written): string
    requires AreDigits(x.c) && |x.cBars| == |x.c|
  {
    if x.point then ['.'] + Underscored(Show(x.c), x.cBars) else []
  }

  function Text(x: Written): string
    requires AreDigits(x.a) && AreDigits(x.c) && |x.aBars| == |x.a| && |x.cBars| == |x.c|
  {
    x.sign + (Integral(x) + Fractional(x))
  }

  // ----- The mantissa -------------------------------------------------------------------

  lemma UnderscoredParts(ds: seq<nat>, bars: seq<bool>, more: string)
    requires AreDigits(ds) && |ds| == |bars| && |ds| > 0
    ensures Show(ds)[1..] == Show(ds[1..]) && Show(ds)[0] == DigitChar(ds[0])
    ensures Cat(Underscored(Show(ds), bars), more)
         == Cat([DigitChar(ds[0])], Cat(Bar(bars[0]), Cat(Underscored(Show(ds[1..]), bars[1..]), more)))
    ensures |Underscored(Show(ds), bars)|
         == 1 + (if bars[0] then 1 else 0) + |Underscored(Show(ds[1..]), bars[1..])|
    ensures EndsBarred(bars) == if |bars| == 1 then bars[0] else EndsBarred(bars[1..])
  {
    ShowFirst(ds);
    UnderscoredFirst(Show(ds), bars);
    hide Show, Underscored, Cat, DigitChar;
    Regrouped([DigitChar(ds[0])], Bar(bars[0]), Underscored(Show(ds[1..]), bars[1..]), more);
  }

  lemma ShowFirst(ds: seq<nat>)
    requires AreDigits(ds) && |ds| > 0
    ensures |Show(ds)| == |ds| && Show(ds)[1..] == Show(ds[1..]) && Show(ds)[0] == DigitChar(ds[0])
  {
  }

  // The scan takes digits with their underscores.
  lemma {:induction false} ScanBarred(s: string, i: nat, ds: seq<nat>, bars: seq<bool>, more: string, first: nat,
                                      last: int, point: bool, n: nat)
    requires AreDigits(ds) && |ds| == |bars| && i <= |s| && last <= i
    requires From(s, i) == Cat(Underscored(Show(ds), bars), more)
    ensures var j := i + |Underscored(Show(ds), bars)|;
            var l := if |ds| == 0 then last else if EndsBarred(bars) then j - 1 else j;
            j <= |s| && From(s, j) == more && l <= j
            && ScanMantissa(s, i, first, last, point, n)
            == ScanMantissa(s, j, first, l, point, if point then n else n + |ds|)
    decreases |ds|
  {
    hide ScanMantissa, Show, Underscored, EndsBarred, Cat, From, DigitChar;
    Behind(s, i, Underscored(Show(ds), bars), more);
    if |ds| > 0 {
      UnderscoredParts(ds, bars, more);
      DigitOfChar(ds[0]);
      var u, bar := Underscored(Show(ds[1..]), bars[1..]), Bar(bars[0]);
      Behind(s, i, [DigitChar(ds[0])], Cat(bar, Cat(u, more)));
      ScanStep(s, i, first, last, point, n);
      var m := if point then n else n + 1;
      Behind(s, i + 1, bar, Cat(u, more));
      if bars[0] {
        ScanStep(s, i + 1, first, i + 1, point, m);
      }
      ScanBarred(s, i + 1 + |bar|, ds[1..], bars[1..], more, first, i + 1, point, m);
    } else {
      ShowLength(ds);
    }
  }

  // What ends a mantissa.
  predicate EndsMantissa(r: string, point: bool) {
    |r| > 0 ==> !IsDigit(r[0]) && r[0] != '_' && (r[0] == '.' ==> point)
  }

  lemma NumberScan(x: Written, r: string, isSigned: bool)
    requires IsNumber(x, isSigned) && EndsMantissa(r, x.point)
    ensures var s := Text(x) + r;
            SignLength(s, isSigned) == |x.sign|
            && var m := ScanMantissa(s, |x.sign|, |x.sign|, |x.sign| - 1, false, 0);
               m.end == |Text(x)| && m.integerDigits == |x.a| && m.lastDigit != |x.sign| - 1
  {
    hide ScanMantissa, Integral, Fractional;
    var s, first := Text(x) + r, |x.sign|;
    NumberStarts(x, r, isSigned);
    var j, last := NumberInteger(x, r);
    assert j == first + |Integral(x)|;
    if x.point {
      NumberFraction(s, x, r, first, j, last);
      NumberLength(x);
    } else {
      ScanStep(s, j, first, last, false, |x.a|);
      NumberTail(x, r);
    }
  }

  lemma NumberStarts(x: Written, r: string, isSigned: bool)
    requires IsNumber(x, isSigned)
    ensures SignLength(Text(x) + r, isSigned) == |x.sign|
    ensures |x.sign| <= |Text(x) + r| && From(Text(x) + r, |x.sign|) == Cat(Integral(x), Cat(Fractional(x), r))
  {
    var s := Text(x) + r;
    assert s == x.sign + (Integral(x) + (Fractional(x) + r));
    if |x.sign| > 0 {
      assert s[0] == x.sign[0];
    } else if |x.a| > 0 {
      assert s[0] == Integral(x)[0] == Show(x.a)[0];
    } else {
      assert |Show(x.a)| == 0 && |Integral(x)| == 0;
      assert s[0] == '.';
    }
  }

  lemma NumberInteger(x: Written, r: string) returns (j: nat, last: int)
    requires IsNumber(x, true) || IsNumber(x, false)
    requires |x.sign| <= |Text(x) + r| && From(Text(x) + r, |x.sign|) == Cat(Integral(x), Cat(Fractional(x), r))
    ensures var s, first := Text(x) + r, |x.sign|;
            j == first + |Integral(x)| && j <= |s| && From(s, j) == Cat(Fractional(x), r) && last <= j
            && last == (if |x.a| == 0 then first - 1 else if EndsBarred(x.aBars) then j - 1 else j)
            && ScanMantissa(s, first, first, first - 1, false, 0) == ScanMantissa(s, j, first, last, false, |x.a|)
            && (|x.a| > 0 ==> last > first - 1) && (|x.a| == 0 ==> j == first)
  {
    hide ScanMantissa, Show, Underscored, EndsBarred, Fractional, Cat, From, Text;
    var s, first := Text(x) + r, |x.sign|;
    ScanBarred(s, first, x.a, x.aBars, Cat(Fractional(x), r), first, first - 1, false, 0);
    j := first + |Integral(x)|;
    last := if |x.a| == 0 then first - 1 else if EndsBarred(x.aBars) then j - 1 else j;
    ShowLength(x.a);
  }

  lemma NumberFraction(s: string, x: Written, r: string, first: nat, j: nat, last: int)
    requires (IsNumber(x, true) || IsNumber(x, false)) && EndsMantissa(r, true) && x.point
    requires j <= |s| && From(s, j) == Cat(Fractional(x), r) && last <= j
    requires if |x.a| == 0 then j == first && last == first - 1 else first <= last == j
    ensures var m := ScanMantissa(s, j, first, last, false, |x.a|);
            m.end == j + |Fractional(x)| && m.integerDigits == |x.a| && m.lastDigit != first - 1
  {
    NumberCases(x);
    hide *;
    PointParts(x, r);
    var k, l := FractionScan(s, j, x.c, x.cBars, r, first, last, |x.a|);
    ScanEnds(s, k, r, first, l, |x.a|);
  }

  // The scan takes the point and the digits behind it.
  lemma FractionScan(s: string, j: nat, c: seq<nat>, bars: seq<bool>, r: string, first: nat, last: int, n: nat)
    returns (k: nat, l: int)
    requires AreDigits(c) && |c| == |bars| && j <= |s| && last <= j && (last == j || first == j)
    requires From(s, j) == Cat(['.'], Cat(Underscored(Show(c), bars), r))
    ensures k == j + 1 + |Underscored(Show(c), bars)| && k <= |s| && From(s, k) == r && l <= k
    ensures if |c| == 0 then l == last else l > j
    ensures ScanMantissa(s, j, first, last, false, n) == ScanMantissa(s, k, first, l, true, n)
  {
    hide ScanMantissa, Show, Underscored, EndsBarred, Cat, From;
    var u := Underscored(Show(c), bars);
    Behind(s, j, ['.'], Cat(u, r));
    ScanStep(s, j, first, last, false, n);
    ScanBarred(s, j + 1, c, bars, r, first, last, true, n);
    k := j + 1 + |u|;
    l := if |c| == 0 then last else if EndsBarred(bars) then k - 1 else k;
    ShowLength(c);
  }

  lemma ScanEnds(s: string, k: nat, r: string, first: nat, l: int, n: nat)
    requires k <= |s| && From(s, k) == r && EndsMantissa(r, true) && l <= k
    ensures ScanMantissa(s, k, first, l, true, n) == Mantissa(k, l, n)
  {
    assert |r| == |s| - k && (|r| > 0 ==> s[k] == r[0]);
  }

  lemma NumberCases(x: Written)
    requires IsNumber(x, true) || IsNumber(x, false)
    ensures AreDigits(x.c) && |x.cBars| == |x.c| && (|x.a| == 0 ==> |x.c| > 0)
  {
  }

  lemma NumberLength(x: Written)
    requires IsNumber(x, true) || IsNumber(x, false)
    ensures |Text(x)| == |x.sign| + |Integral(x)| + |Fractional(x)|
  {
    hide Integral, Fractional;
  }

  lemma PointParts(x: Written, r: string)
    requires (IsNumber(x, true) || IsNumber(x, false)) && x.point
    ensures var u := Underscored(Show(x.c), x.cBars);
            Cat(Fractional(x), r) == Cat(['.'], Cat(u, r)) && |Fractional(x)| == 1 + |u|
  {
    hide Show, Underscored, EndsBarred;
  }

  lemma NumberTail(x: Written, r: string)
    requires (IsNumber(x, true) || IsNumber(x, false)) && !x.point
    ensures var s := Text(x) + r; |x.sign| + |Integral(x)| == |Text(x)| && (|r| > 0 ==> s[|Text(x)|] == r[0])
  {
  }

  // ----- The exponent -------------------------------------------------------------------

  lemma {:induction false} DigitRunIs(s: string, i: nat, k: seq<nat>, done: seq<nat>, r: string)
    requires AreDigits(k) && i <= |s| && From(s, i) == Cat(Show(k), r) && (|r| > 0 ==> !IsDigit(r[0]))
    ensures ScanDigits(s, i, Nat(done)) == DigitRun(i + |k|, Nat(done + k))
    decreases |k|
  {
    hide Show, Nat, Cat, From;
    Behind(s, i, Show(k), r);
    ShowLength(k);
    if |k| == 0 {
      assert done + k == done;
    } else {
      ShowParts(k, r);
      Behind(s, i, [DigitChar(k[0])], Cat(Show(k[1..]), r));
      NatPush(done, k[0]);
      DigitRunIs(s, i + 1, k[1..], done + [k[0]], r);
      assert done + [k[0]] + k[1..] == done + k;
    }
  }

  lemma ShowParts(k: seq<nat>, r: string)
    requires AreDigits(k) && |k| > 0
    ensures Cat(Show(k), r) == Cat([DigitChar(k[0])], Cat(Show(k[1..]), r))
  {
    assert Show(k) == [DigitChar(k[0])] + Show(k[1..]);
  }

  lemma ShowLength(k: seq<nat>)
    requires AreDigits(k)
    ensures |Show(k)| == |k|
  {
  }

  // An exponent with the digits k.
  predicate IsExponent(e: char, sign: string) {
    (e == 'e' || e == 'E') && (|sign| == 0 || sign == ['+'] || sign == ['-'])
  }

  lemma ExponentIs(s: string, i: nat, e: char, sign: string, k: seq<nat>, r: string, digits: int)
    requires IsExponent(e, sign) && AreDigits(k) && |k| > 0 && (|r| > 0 ==> !IsDigit(r[0]))
    requires i <= |s| && From(s, i) == Cat([e], Cat(sign, Cat(Show(k), r)))
    ensures WithExponent(s, i, digits)
         == Preparsed(i + 1 + |sign| + |k|, if sign == ['-'] then digits - Nat(k) else digits + Nat(k))
  {
    hide Show, Nat, ScanDigits, WithExponent, Cat, From, IsExponent, DigitChar;
    var j := i + 1 + |sign|;
    ExponentParts(s, i, e, sign, k, r);
    DigitOfChar(k[0]);
    ExponentUnfold(s, i, sign, digits);
    FirstDigit(k);
    DigitRunIs(s, j + 1, k[1..], [k[0]], r);
  }

  lemma DigitOfChar(d: nat)
    requires d < 10
    ensures IsDigit(DigitChar(d)) && DigitValue(DigitChar(d)) == d && DigitChar(d) !in ['_', '.']
  {
  }

  lemma ExponentParts(s: string, i: nat, e: char, sign: string, k: seq<nat>, r: string)
    requires AreDigits(k) && |k| > 0
    requires i <= |s| && From(s, i) == Cat([e], Cat(sign, Cat(Show(k), r)))
    ensures var j := i + 1 + |sign|;
            j < |s| && s[i] == e && (|sign| > 0 ==> s[i + 1] == sign[0]) && s[j] == DigitChar(k[0])
            && From(s, j + 1) == Cat(Show(k[1..]), r)
  {
    hide Show, Cat, From, DigitChar;
    var tail := Cat(Show(k), r);
    Behind(s, i, [e], Cat(sign, tail));
    Behind(s, i + 1, sign, tail);
    ShowParts(k, r);
    Behind(s, i + 1 + |sign|, [DigitChar(k[0])], Cat(Show(k[1..]), r));
  }

  lemma FirstDigit(k: seq<nat>)
    requires AreDigits(k) && |k| > 0
    ensures Nat([k[0]]) == k[0] && [k[0]] + k[1..] == k
  {
    NatPush([], k[0]);
    assert [] + [k[0]] == [k[0]];
    NatNone();
  }

  lemma ExponentUnfold(s: string, i: nat, sign: string, digits: int)
    requires i + 1 + |sign| < |s| && IsExponent(s[i], sign) && IsDigit(s[i + 1 + |sign|])
    requires |sign| > 0 ==> s[i + 1] == sign[0]
    ensures var j := i + 1 + |sign|;
            var run := ScanDigits(s, j + 1, DigitValue(s[j]));
            WithExponent(s, i, digits)
            == Preparsed(run.end, if sign == ['-'] then digits - run.value else digits + run.value)
  {
    hide ScanDigits;
  }

  lemma NatNone()
    ensures Nat([]) == 0
  {
  }

  // A number with its exponent is taken whole, and the exponent moves the decimal point.
  lemma ReadExponent(x: Written, e: char, sign: string, k: seq<nat>, r: string, isSigned: bool, delta: int)
    requires IsNumber(x, isSigned) && IsExponent(e, sign) && AreDigits(k) && |k| > 0 && (|r| > 0 ==> !IsDigit(r[0]))
    ensures var t := Text(x) + ([e] + (sign + Show(k)));
            var count := delta + |x.a|;
            Preparse(t + r, isSigned, delta)
            == Preparsed(|t|, if sign == ['-'] then count - Nat(k) else count + Nat(k))
  {
    hide ScanMantissa, WithExponent, Text, Show, Nat;
    var tail := Cat([e], Cat(sign, Cat(Show(k), r)));
    var t := Text(x) + ([e] + (sign + Show(k)));
    var s := Text(x) + tail;
    assert t + r == s;
    ShowLength(k);
    NumberScan(x, tail, isSigned);
    assert From(s, |Text(x)|) == tail;
    ExponentIs(s, |Text(x)|, e, sign, k, r, delta + |x.a|);
  }

  // A text that goes on with no exponent.
  predicate NoExponent(r: string) {
    |r| > 0 && IsExponentChar(r[0]) ==>
      && (|r| > 1 ==> !IsDigit(r[1]))
      && (|r| > 2 && (r[1] == '-' || r[1] == '+') ==> !IsDigit(r[2]))
  }

  // Without one, reading stops behind the mantissa.
  lemma ReadMantissa(x: Written, r: string, isSigned: bool, delta: int)
    requires IsNumber(x, isSigned) && EndsMantissa(r, x.point) && NoExponent(r)
    ensures Preparse(Text(x) + r, isSigned, delta) == Preparsed(|Text(x)|, delta + |x.a|)
  {
    hide ScanMantissa, Text, ScanDigits;
    var s := Text(x) + r;
    NumberScan(x, r, isSigned);
    assert forall k :: 0 <= k < |r| ==> s[|Text(x)| + k] == r[k];
  }

  // ----- The digits ---------------------------------------------------------------------

  lemma {:induction false} DigitsBarred(ds: seq<nat>, bars: seq<bool>, t: string)
    requires AreDigits(ds) && |ds| == |bars|
    ensures Digits(Cat(Underscored(Show(ds), bars), t)) == ds + Digits(t)
    decreases |ds|
  {
    hide Show, Underscored, Digits, Cat, From;
    if |ds| == 0 {
      ShowLength(ds);
      Regrouped(Underscored(Show(ds), bars), t, [], []);
    } else {
      UnderscoredParts(ds, bars, t);
      var more := Cat(Underscored(Show(ds[1..]), bars[1..]), t);
      DigitsBarred(ds[1..], bars[1..], t);
      DigitsFirst(DigitChar(ds[0]), Cat(Bar(bars[0]), more));
      DigitsFirst('_', more);
      Regrouped(Bar(bars[0]), more, [], []);
      assert [ds[0]] + (ds[1..] + Digits(t)) == ds + Digits(t);
    }
  }

  lemma DigitsFirst(c: char, t: string)
    ensures IsExponentChar(c) ==> Digits(Cat([c], t)) == []
    ensures IsDigit(c) ==> Digits(Cat([c], t)) == [DigitValue(c)] + Digits(t)
    ensures !IsExponentChar(c) && !IsDigit(c) ==> Digits(Cat([c], t)) == Digits(t)
  {
    assert ([c] + t)[1..] == t;
  }

  // The digits seen are those in front of and behind the point, and none of the exponent.
  lemma DigitsOfNumber(x: Written, isSigned: bool, t: string)
    requires IsNumber(x, isSigned) && (|t| > 0 ==> IsExponentChar(t[0]))
    ensures Digits(Text(x) + t) == x.a + x.c
  {
    hide Show, Underscored, Digits, Cat, From, Text, Fractional, EndsBarred;
    var rest := Cat(Fractional(x), t);
    TextParts(x, isSigned, t);
    DigitsBarred(x.a, x.aBars, rest);
    NoneFrom(t);
    if x.point {
      PointParts(x, t);
      DigitsBarred(x.c, x.cBars, t);
      DigitsFirst('.', Cat(Underscored(Show(x.c), x.cBars), t));
    }
    assert x.c + [] == x.c && x.a + [] == x.a;
    Regrouped(x.sign, Cat(Integral(x), rest), [], []);
    if |x.sign| > 0 {
      DigitsFirst(x.sign[0], Cat(Integral(x), rest));
      assert x.sign == [x.sign[0]];
    }
  }

  lemma TextParts(x: Written, isSigned: bool, t: string)
    requires IsNumber(x, isSigned)
    ensures Text(x) + t == Cat(x.sign, Cat(Integral(x), Cat(Fractional(x), t)))
    ensures !x.point ==> Cat(Fractional(x), t) == t
  {
    hide Show, Underscored, EndsBarred;
    assert x.sign + (Integral(x) + Fractional(x)) + t == x.sign + (Integral(x) + (Fractional(x) + t));
  }

  lemma NoneFrom(t: string)
    requires |t| > 0 ==> IsExponentChar(t[0])
    ensures Digits(t) == []
  {
  }

  // ----- The value ----------------------------------------------------------------------

  // The digits with the decimal point moved by an exponent are the number times ten to it.
  lemma MovedPoint(ds: seq<nat>, n: nat, x: nat)
    requires n <= |ds|
    ensures var m := Pow10(if x <= |ds| - n then x else |ds| - n);
            m >= 1 && m * FixedPoint.Numerator(ds, n + x) == Nat(ds) * Pow10(x)
            && m * FixedPoint.Denominator(ds, n + x) == Pow10(|ds| - n)
  {
    hide Nat, Pow10;
    var f := |ds| - n;
    if x <= f {
      Pow10Add(x, f - x);
      MulSwap(Pow10(x), Nat(ds));
    } else {
      Pow10Add(f, x - f);
      Rearranged(Pow10(f), Nat(ds), Pow10(x - f));
    }
  }

  lemma Rearranged(a: nat, b: nat, c: nat)
    ensures a * (b * c) == b * (a * c)
  {
  }

  lemma ScaledQuotient(x: nat, y: nat, m: nat)
    requires y >= 1 && m >= 1
    ensures m * y >= 1 && m * x / (m * y) == x / y
  {
    FixedPoint.PositiveProduct(m, y);
    var q := x / y;
    DivBounds(x, y);
    MulLe(y * q, x, m);
    MulLe(x + 1, y * q + y, m);
    MulAssoc(m, y, q);
    MulAdd(m, x, 1);
    MulAdd(m, y * q, y);
    DivUnique(m * x, m * y, q);
  }

  lemma SameFixedValue(p: nat, q: nat, m: nat, unit: nat)
    requires q >= 1 && m >= 1 && unit >= 1
    ensures m * q >= 1 && FixedPoint.FixedValue(m * p, m * q, unit) == FixedPoint.FixedValue(p, q, unit)
  {
    FixedPoint.PositiveProduct(m, q);
    FixedPoint.PositiveProduct(unit, q);
    FixedPoint.PositiveProduct(unit, m * q);
    ScaledQuotient(p * TWO33 + q + unit * q, 2 * (unit * q), m);
    FixedParts(p, q, m, unit, TWO33);
  }

  lemma FixedParts(p: nat, q: nat, m: nat, unit: nat, t: nat)
    ensures m * p * t + m * q + unit * (m * q) == m * (p * t + q + unit * q)
    ensures 2 * (unit * (m * q)) == m * (2 * (unit * q))
  {
  }

  lemma SameRounded(p: nat, q: nat, m: nat)
    requires q >= 1 && m >= 1
    ensures m * q >= 1 && FixedPoint.Rounded(m * p, m * q) == FixedPoint.Rounded(p, q)
  {
    FixedPoint.PositiveProduct(m, q);
    ScaledQuotient(p * TWO33 + q, 2 * q, m);
    RoundedParts(p, q, m, TWO33);
  }

  lemma RoundedParts(p: nat, q: nat, m: nat, t: nat)
    ensures m * p * t + m * q == m * (p * t + q) && 2 * (m * q) == m * (2 * q)
  {
  }

  lemma SameDecimalValue(p: nat, q: nat, m: nat, d: nat)
    requires q >= 1 && m >= 1
    ensures m * q >= 1 && Real10.DecimalValue(m * p, m * q, d) == Real10.DecimalValue(p, q, d)
  {
    hide Pow10;
    FixedPoint.PositiveProduct(m, q);
    ScaledQuotient(Twice(p, q, Pow10(d)), 2 * q, m);
    DecimalParts(p, q, m, Pow10(d));
    hide Twice;
  }

  function Twice(p: nat, q: nat, t: nat): nat {
    2 * (p * t) + q
  }

  lemma DecimalParts(p: nat, q: nat, m: nat, t: nat)
    ensures 2 * (m * p * t) + m * q == m * Twice(p, q, t) && 2 * (m * q) == m * (2 * q)
  {
  }

  // The number as a fraction p/q: the digits over the power of ten for those behind the point,
  // times ten to the exponent.
  function Over(x: Written, sign: string, k: nat): (nat, nat) {
    if sign == ['-'] then (Nat(x.a + x.c), Pow10(|x.c| + k)) else (Nat(x.a + x.c) * Pow10(k), Pow10(|x.c|))
  }

  // The count of integer digits with the exponent.
  function Count(x: Written, sign: string, k: nat): int {
    if sign == ['-'] then |x.a| - k else |x.a| + k
  }

  // What the readers make of digits and count is that fraction.
  lemma CountIsOver(x: Written, sign: string, k: nat) returns (m: nat)
    ensures var (p, q), ds, n := Over(x, sign, k), x.a + x.c, Count(x, sign, k);
            m >= 1 && q >= 1 && m * FixedPoint.Numerator(ds, n) == p && m * FixedPoint.Denominator(ds, n) == q
  {
    hide Nat, Pow10;
    var ds := x.a + x.c;
    if sign == ['-'] {
      m := 1;
      assert |ds| - Count(x, sign, k) == |x.c| + k;
    } else {
      m := Pow10(if k <= |x.c| then k else |x.c|);
      MovedPoint(ds, |x.a|, k);
    }
  }

  function Scientific(x: Written, e: char, sign: string, k: seq<nat>): string
    requires AreDigits(x.a) && AreDigits(x.c) && |x.aBars| == |x.a| && |x.cBars| == |x.c| && AreDigits(k)
  {
    Text(x) + ([e] + (sign + Show(k)))
  }

  // What the readers see in the text of a number with an exponent.
  lemma ScientificSeen(x: Written, e: char, sign: string, k: seq<nat>)
    requires IsNumber(x, false) && IsExponent(e, sign) && AreDigits(k) && |k| > 0
    ensures var t := Scientific(x, e, sign, k);
            |t| > 0 && Preparse(t, false, 0) == Preparsed(|t|, Count(x, sign, Nat(k))) && Digits(t) == x.a + x.c
  {
    hide Text, Nat, Show, Digits, Preparse;
    var t := Scientific(x, e, sign, k);
    ReadExponent(x, e, sign, k, [], false, 0);
    assert t + [] == t;
    DigitsOfNumber(x, false, [e] + (sign + Show(k)));
  }

  // FixedPointArg reads it as the number that it stands for, rounded.
  lemma FixedPointRead(x: Written, e: char, sign: string, k: seq<nat>, b: nat)
    requires IsNumber(x, false) && IsExponent(e, sign) && AreDigits(k) && |k| > 0
    requires 1 <= b <= 32 && Count(x, sign, Nat(k)) >= 0
    ensures var (p, q), unit := Over(x, sign, Nat(k)), Pow2(32 - b);
            q >= 1 && FixedPoint.ReadText(Scientific(x, e, sign, k), false, 0, b)
            == FixedPoint.Success(FixedPoint.Capped(if b < 32 then FixedPoint.FixedValue(p, q, unit)
                                                    else FixedPoint.Rounded(p, q)))
  {
    hide Digits, Preparse, Nat, Pow2, Scientific, Over, Count, FixedPoint.Scale, FixedPoint.ToFixed,
      FixedPoint.Numerator, FixedPoint.Denominator, FixedPoint.FixedValue, FixedPoint.Rounded, FixedPoint.Capped;
    var t, ds, n := Scientific(x, e, sign, k), x.a + x.c, Count(x, sign, Nat(k));
    ScientificSeen(x, e, sign, k);
    assert t[..|t|] == t;
    DigitsTogether(x.a, x.c);
    var m := CountIsOver(x, sign, Nat(k));
    if b < 32 {
      FixedPoint.ReadFixedExact(ds, n, b);
      SameFixedValue(FixedPoint.Numerator(ds, n), FixedPoint.Denominator(ds, n), m, Pow2(32 - b));
    } else {
      FixedPoint.ReadFixed32(ds, n);
      SameRounded(FixedPoint.Numerator(ds, n), FixedPoint.Denominator(ds, n), m);
    }
  }

  lemma DigitsTogether(a: seq<nat>, c: seq<nat>)
    requires AreDigits(a) && AreDigits(c)
    ensures AreDigits(a + c)
  {
  }

  // And DecimalFixedPointArg does, unless zeros fill the whole fraction.
  lemma DecimalRead(x: Written, e: char, sign: string, k: seq<nat>, d: nat)
    requires IsNumber(x, false) && IsExponent(e, sign) && AreDigits(k) && |k| > 0
    requires Count(x, sign, Nat(k)) + d >= 0
    ensures var (p, q) := Over(x, sign, Nat(k));
            q >= 1 && Real10.ReadText(Scientific(x, e, sign, k), false, 0, d)
            == Real10.Success(FixedPoint.Capped(Real10.DecimalValue(p, q, d)))
  {
    hide Digits, Preparse, Nat, Scientific, Over, Count, Real10.ReadDecimal, Real10.DecimalValue,
      FixedPoint.Numerator, FixedPoint.Denominator, FixedPoint.Capped;
    var ds, n := x.a + x.c, Count(x, sign, Nat(k));
    ScientificSeen(x, e, sign, k);
    DigitsTogether(x.a, x.c);
    var m := CountIsOver(x, sign, Nat(k));
    Real10.ReadDecimalExact(ds, n, d);
    SameDecimalValue(FixedPoint.Numerator(ds, n), FixedPoint.Denominator(ds, n), m, d);
  }

  // ----- Without an exponent ------------------------------------------------------------

  // What the readers see in the text of a number without an exponent.
  lemma PlainSeen(x: Written)
    requires IsNumber(x, false)
    ensures var t := Text(x);
            |t| > 0 && Preparse(t, false, 0) == Preparsed(|t|, Count(x, [], 0)) && Digits(t) == x.a + x.c
  {
    hide Text, Digits, Preparse;
    var t := Text(x);
    ReadMantissa(x, [], false, 0);
    DigitsOfNumber(x, false, []);
    assert t + [] == t;
    SomeText(x);
  }

  lemma SomeText(x: Written)
    requires IsNumber(x, false)
    ensures |Text(x)| > 0
  {
    hide Underscored, Show;
    NumberLength(x);
    ShowLength(x.a);
    ShowLength(x.c);
  }

  // It is read as the digits over the power of ten for those behind the point.
  lemma PlainRead(x: Written, b: nat, d: nat)
    requires IsNumber(x, false) && 1 <= b <= 32
    ensures var (p, q), unit := Over(x, [], 0), Pow2(32 - b);
            q >= 1 && FixedPoint.ReadText(Text(x), false, 0, b)
            == FixedPoint.Success(FixedPoint.Capped(if b < 32 then FixedPoint.FixedValue(p, q, unit)
                                                    else FixedPoint.Rounded(p, q)))
            && Real10.ReadText(Text(x), false, 0, d)
            == Real10.Success(FixedPoint.Capped(Real10.DecimalValue(p, q, d)))
  {
    hide Digits, Preparse, Nat, Pow2, Over, Count, FixedPoint.Scale, FixedPoint.ToFixed, Text,
      FixedPoint.Numerator, FixedPoint.Denominator, FixedPoint.FixedValue, FixedPoint.Rounded, FixedPoint.Capped,
      Real10.ReadDecimal, Real10.DecimalValue;
    var t, ds, n := Text(x), x.a + x.c, Count(x, [], 0);
    PlainSeen(x);
    assert t[..|t|] == t;
    DigitsTogether(x.a, x.c);
    CountIsNat(x);
    var m := CountIsOver(x, [], 0);
    if b < 32 {
      FixedPoint.ReadFixedExact(ds, n, b);
      SameFixedValue(FixedPoint.Numerator(ds, n), FixedPoint.Denominator(ds, n), m, Pow2(32 - b));
    } else {
      FixedPoint.ReadFixed32(ds, n);
      SameRounded(FixedPoint.Numerator(ds, n), FixedPoint.Denominator(ds, n), m);
    }
    Real10.ReadDecimalExact(ds, n, d);
    SameDecimalValue(FixedPoint.Numerator(ds, n), FixedPoint.Denominator(ds, n), m, d);
  }

  lemma CountIsNat(x: Written)
    ensures Count(x, [], 0) >= 0
  {
  }

  // ----- No number ----------------------------------------------------------------------

  // Behind the sign must come a digit, or a point and a digit.
  lemma NotANumber(s: string, isSigned: bool, delta: int)
    requires var i := SignLength(s, isSigned);
             (i < |s| ==> !IsDigit(s[i])) && (i + 1 < |s| && s[i] == '.' ==> !IsDigit(s[i + 1]))
    ensures Preparse(s, isSigned, delta).end == 0
  {
    hide ScanMantissa, WithExponent, IsDigit;
    var i := SignLength(s, isSigned);
    ScanStep(s, i, i, i - 1, false, 0);
    if i < |s| && s[i] == '.' {
      ScanStep(s, i + 1, i, i - 1, true, 0);
    }
  }

  // A number must be the whole text.
  lemma TrailingText(x: Written, r: string, b: nat, d: nat)
    requires IsNumber(x, false) && EndsMantissa(r, x.point) && NoExponent(r) && |r| > 0 && 1 <= b <= 32
    ensures FixedPoint.ReadText(Text(x) + r, false, 0, b) == FixedPoint.Failure
    ensures Real10.ReadText(Text(x) + r, false, 0, d) == Real10.Failure
  {
    hide Preparse, Digits, Text, FixedPoint.ToFixed, Real10.ReadDecimal;
    ReadMantissa(x, r, false, 0);
  }
}
