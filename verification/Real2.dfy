/**
 `cp_unparse_real2` of `lib/confparse.cc`: a binary fixed-point number printed with so few
 decimals that fewer would be nearer to another one, after print_scaled (sections 102 and 103
 of "TeX: The Program"). It must be undone by FixedPointArg.
 */
module Real2 {
  import opened Widths
  import opened Decimal
  import opened NumberText
  import opened FixedPoint
  import opened DecimalText

  const MAX_FRAC_BITS: nat := 28

  // ----- The printer --------------------------------------------------------------------

  // The least number 5 * 10^k that is not below half of one.
  function Rounder(half: nat, r: nat): nat
    requires r > 0
    decreases half - r
  {
    if r < half then Rounder(half, 10 * r) else r
  }

  // allowable_inaccuracy at the j-th digit, in 32 bits.
  function Allowed(j: nat): nat
    requires j >= 1
    decreases j
  {
    if j == 1 then 10 else 10 * Allowed(j - 1) % TWO32
  }

  lemma AllowedSteps(j: nat, n: nat)
    requires 1 <= j && Allowed(j) == n
    ensures Allowed(j + 1) == 10 * n % TWO32
  {
  }

  lemma AllowedValues()
    ensures Allowed(1) == 10 && Allowed(2) == 100 && Allowed(3) == 1_000
    ensures Allowed(4) == 10_000 && Allowed(5) == 100_000 && Allowed(6) == 1_000_000
    ensures Allowed(7) == 10_000_000 && Allowed(8) == 100_000_000 && Allowed(9) == 1_000_000_000
    ensures Allowed(10) == 1_410_065_408 && Allowed(11) == 1_215_752_192
    ensures Allowed(12) == 3_567_587_328
  {
    hide Allowed;
    assert Allowed(1) == 10 by { AllowedOne(); }
    AllowedSteps(1, 10);
    AllowedSteps(2, 100);
    AllowedSteps(3, 1_000);
    AllowedSteps(4, 10_000);
    AllowedSteps(5, 100_000);
    AllowedSteps(6, 1_000_000);
    AllowedSteps(7, 10_000_000);
    AllowedSteps(8, 100_000_000);
    AllowedSteps(9, 1_000_000_000);
    AllowedSteps(10, 1_410_065_408);
    AllowedSteps(11, 1_215_752_192);
  }

  lemma AllowedOne()
    ensures Allowed(1) == 10
  {
  }

  // Half a unit of the last digit is traded for half a unit of the number at the digit that
  // is to be rounded. The sum is taken in 32 bits.
  function Adjusted(num: nat, j: nat, one: nat): nat
    requires j >= 1
  {
    if Allowed(j) > one then (num + one / 2 - Rounder(one / 2, 5)) % TWO32 else num
  }

  function Low(num: nat, one: nat): (r: nat)
    requires one > 0
    ensures r < one
  {
    num % one
  }

  function High(num: nat, one: nat): nat
    requires one > 0
  {
    num / one
  }

  function Digit(num: nat, j: nat, one: nat): nat
    requires j >= 1 && one > 0
  {
    Adjusted(num, j, one) / one
  }

  function Next(num: nat, j: nat, one: nat): (n: nat)
    requires j >= 1 && one > 0
    ensures n <= 10 * one
  {
    10 * Low(Adjusted(num, j, one), one)
  }

  // The digits from the j-th on.
  function PrintedDigits(num: nat, j: nat, one: nat): (ds: seq<nat>)
    requires 1 <= j <= 11 && 0 < one <= 0x1000_0000
    ensures |ds| > 0
    decreases 12 - j
  {
    hide Next, Digit, Allowed;
    if Next(num, j, one) > Allowed(j + 1) then
      AllowedEnds(j, Next(num, j, one));
      [Digit(num, j, one)] + PrintedDigits(Next(num, j, one), j + 1, one)
    else [Digit(num, j, one)]
  }

  // With at most 28 bits of fraction the loop ends at the eleventh digit.
  lemma AllowedEnds(j: nat, next: nat)
    requires 1 <= j <= 11 && next <= 0xa000_0000 && next > Allowed(j + 1)
    ensures j < 11
  {
    hide Allowed;
    AllowedValues();
  }

  function CharDigits(ds: seq<nat>): (s: string) {
    seq(|ds|, i requires 0 <= i < |ds| => ((48 + ds[i]) % 256) as char)
  }

  function Real2Text(x: nat, b: nat): string
    requires b <= MAX_FRAC_BITS
  {
    hide PrintedDigits, Pow2, High, Low;
    OneBound(b);
    var one := Pow2(b);
    var f := Low(x, one);
    if f == 0 then Show(DigitsOf(High(x, one)))
    else Show(DigitsOf(High(x, one))) + ['.'] + CharDigits(PrintedDigits(10 * f + 5, 1, one))
  }

  lemma OneBound(b: nat)
    requires b <= MAX_FRAC_BITS
    ensures Pow2(b) <= 0x1000_0000
  {
    hide Pow2;
    Pow2Add(b, 28 - b);
    Pow2Of28();
    MulLe(1, Pow2(28 - b), Pow2(b));
  }

  lemma Pow2Of28()
    ensures Pow2(28) == 0x1000_0000
  {
    assert Pow2(7) == 0x80;
    Pow2Add(7, 7);
    Pow2Add(14, 14);
  }

  lemma CharDigitsShow(ds: seq<nat>)
    requires AreDigits(ds)
    ensures CharDigits(ds) == Show(ds)
  {
    forall i | 0 <= i < |ds| ensures CharDigits(ds)[i] == Show(ds)[i] {
      assert DigitChar(ds[i]) as int == 48 + ds[i];
    }
  }

  // ----- When a decimal fraction reads back -------------------------------------------------

  // n / 10^k is read as f units of 2^-b, with one = 2^b and unit = 2^(32-b).
  ghost predicate ReadsBack(n: nat, q: nat, f: nat, one: nat, unit: nat) {
    var e := 2 * (one * n) - 2 * (q * f);
    e + q >= 0 && unit * (q - e) > q
  }

  lemma ReadsBackValue(i: nat, n: nat, q: nat, f: nat, one: nat, unit: nat)
    requires q >= 1 && unit >= 1 && one * unit == TWO32
    ensures ReadsBack(n, q, f, one, unit) ==> FixedValue(i * q + n, q, unit) == i * one + f
  {
    if ReadsBack(n, q, f, one, unit) {
      var e, d := 2 * (one * n) - 2 * (q * f), 2 * (unit * q);
      PositiveProduct(unit, q);
      Expand(i, n, q, f, one, unit);
      Window(unit, e, q);
      DivUnique((i * q + n) * TWO33 + q + unit * q, d, i * one + f);
    }
  }

  lemma Window(unit: nat, e: int, q: nat)
    requires e + q >= 0 && unit * (q - e) > q
    ensures 0 <= unit * e + q + unit * q < 2 * (unit * q)
  {
    assert unit * (e + q) >= 0;
    assert unit * (e + q) == unit * e + unit * q;
    assert unit * (q - e) == unit * q - unit * e;
  }

  lemma Expand(i: nat, n: nat, q: nat, f: nat, one: nat, unit: nat)
    requires one * unit == TWO32
    ensures (i * q + n) * TWO33 - 2 * (unit * q) * (i * one + f)
         == unit * (2 * (one * n) - 2 * (q * f))
  {
    calc {
      (i * q + n) * TWO33;
      2 * (i * q * TWO32) + 2 * (n * TWO32);
      2 * (i * q * (one * unit)) + 2 * (n * (one * unit));
    }
    assert 2 * (unit * q) * (i * one + f) == 2 * (i * q * (one * unit)) + 2 * (unit * (q * f));
    assert n * (one * unit) == unit * (one * n);
  }

  // ----- The printed fraction reads back, up to 19 bits ------------------------------------

  // The digit at which a number of b bits is rounded.
  function LastDigit(b: nat): nat {
    if b <= 3 then 1 else if b <= 6 then 2 else if b <= 9 then 3
    else if b <= 13 then 4 else if b <= 16 then 5 else 6
  }

  lemma Pow2Values()
    ensures Pow2(1) == 2 && Pow2(2) == 4 && Pow2(3) == 8 && Pow2(4) == 16 && Pow2(5) == 32
    ensures Pow2(6) == 64 && Pow2(7) == 128 && Pow2(8) == 256 && Pow2(9) == 512 && Pow2(10) == 1024
    ensures Pow2(11) == 2048 && Pow2(12) == 4096 && Pow2(13) == 8192 && Pow2(14) == 16384
    ensures Pow2(15) == 32768 && Pow2(16) == 65536 && Pow2(17) == 131072 && Pow2(18) == 262144
    ensures Pow2(19) == 524288
  {
    Pow2Step(1, 2);
    Pow2Step(2, 4);
    Pow2Step(3, 8);
    Pow2Step(4, 16);
    Pow2Step(5, 32);
    Pow2Step(6, 64);
    Pow2Step(7, 128);
    Pow2Step(8, 256);
    Pow2Step(9, 512);
    Pow2Step(10, 1024);
    Pow2Step(11, 2048);
    Pow2Step(12, 4096);
    Pow2Step(13, 8192);
    Pow2Step(14, 16384);
    Pow2Step(15, 32768);
    Pow2Step(16, 65536);
    Pow2Step(17, 131072);
    Pow2Step(18, 262144);
  }

  lemma Pow2Step(n: nat, p: nat)
    ensures Pow2(n) == p ==> Pow2(n + 1) == 2 * p
    ensures Pow2(1) == 2
  {
    assert Pow2(0) == 1;
  }

  lemma Pow10Values()
    ensures Pow10(0) == 1 && Pow10(1) == 10 && Pow10(2) == 100 && Pow10(3) == 1_000
    ensures Pow10(4) == 10_000 && Pow10(5) == 100_000 && Pow10(6) == 1_000_000
    ensures Pow10(7) == 10_000_000
  {
    assert Pow10(3) == 1_000;
    assert Pow10(6) == 1000 * Pow10(3);
  }

  // The powers of two and ten around a number of 1 to 19 bits.
  lemma BitFacts(b: nat)
    requires 1 <= b <= 19
    ensures var one, k := Pow2(b), LastDigit(b);
            Pow10(k - 1) <= one < Pow10(k) && 10 * (Pow10(k) - one) >= Pow10(k)
            && one % 2 == 0 && k - 1 <= b && one <= 524288
    ensures Pow2(32 - b) >= 8192 && Pow2(b) * Pow2(32 - b) == TWO32
  {
    hide Pow2, Pow10, LastDigit;
    BitBounds(b);
    PowersOfTwo(b);
    UnitLarge(Pow2(b), Pow2(32 - b));
  }

  lemma BitBounds(b: nat)
    requires 1 <= b <= 19
    ensures var one, k := Pow2(b), LastDigit(b);
            1 <= k <= b + 1 && Pow10(k - 1) <= one < Pow10(k) && 10 * (Pow10(k) - one) >= Pow10(k)
            && one % 2 == 0 && one <= 524288
  {
    hide Pow2, Pow10;
    Pow2Values();
    Pow10Values();
  }

  lemma UnitLarge(one: nat, unit: nat)
    requires one <= 524288 && one * unit == TWO32
    ensures unit >= 8192
  {
    if unit < 8192 {
      MulLe(unit, 8191, one);
    }
  }

  lemma {:induction false} RounderValue(half: nat, i: nat, k: nat)
    requires i <= k && half <= 5 * Pow10(k)
    requires k > 0 ==> 5 * Pow10(k - 1) < half
    ensures Rounder(half, 5 * Pow10(i)) == 5 * Pow10(k)
    decreases k - i
  {
    if i < k {
      Pow10Mono(i, k - 1);
      RounderValue(half, i + 1, k);
    }
  }

  lemma {:induction false} Pow10Mono(i: nat, k: nat)
    requires i <= k
    ensures Pow10(i) <= Pow10(k)
    decreases k - i
  {
    if i < k {
      Pow10Mono(i, k - 1);
    }
  }

  function Pow5(n: nat): (p: nat)
    ensures p % 2 == 1
  {
    if n == 0 then 1
    else
      var q := Pow5(n - 1);
      OddTimesFive(q);
      5 * q
  }

  lemma OddTimesFive(q: nat)
    requires q % 2 == 1
    ensures 5 * q % 2 == 1
  {
    assert 5 * q == 2 * (2 * q + q / 2) + 1;
  }

  lemma {:induction false} TenIsTwoFive(n: nat)
    ensures Pow10(n) == Pow2(n) * Pow5(n)
  {
    if n > 0 {
      TenIsTwoFive(n - 1);
      assert 10 * (Pow2(n - 1) * Pow5(n - 1)) == (2 * Pow2(n - 1)) * (5 * Pow5(n - 1));
    }
  }

  lemma Pow5Bound(j: nat)
    requires j <= 5
    ensures Pow5(j) <= 3125
  {
    assert Pow5(0) == 1 && Pow5(1) == 5 && Pow5(2) == 25;
    assert Pow5(3) == 125 && Pow5(4) == 625 && Pow5(5) == 3125;
  }

  // Before the rounding digit, an error of at most half a unit is less than half by a margin:
  // the printed fraction is never an exact tie.
  lemma EarlyMargin(j: nat, b: nat, f: nat, n: nat)
    requires j <= 5 && j <= b && b <= 19 && Pow2(32 - b) >= 8192
    requires 2 * (Pow2(b) * n) - 2 * (Pow10(j) * f) <= Pow10(j)
    ensures Pow2(32 - b) * (Pow10(j) - (2 * (Pow2(b) * n) - 2 * (Pow10(j) * f))) > Pow10(j)
  {
    hide Pow2, Pow10, Pow5;
    var two, five, rest, unit := Pow2(j), Pow5(j), Pow2(b - j), Pow2(32 - b);
    TenIsTwoFive(j);
    Pow2Add(j, b - j);
    Pow5Bound(j);
    OddMargin(two, five, rest, unit, f, n);
  }

  lemma OddMargin(two: nat, five: nat, rest: nat, unit: nat, f: nat, n: nat)
    requires five % 2 == 1 && five <= 3125 && two >= 1 && unit >= 8192
    requires 2 * (two * rest * n) - 2 * (two * five * f) <= two * five
    ensures unit * (two * five - (2 * (two * rest * n) - 2 * (two * five * f))) > two * five
  {
    var m := five * (2 * f + 1) - 2 * (rest * n);
    var gap := two * five - (2 * (two * rest * n) - 2 * (two * five * f));
    GapFactor(two, five, rest, f, n);
    OddFactor(five, f, rest * n);
    PositiveFactor(two, m);
    MarginProduct(unit, gap, two, five);
  }

  lemma PositiveFactor(a: nat, m: int)
    requires a >= 1 && a * m >= 0 && m != 0
    ensures a * m >= a
  {
  }

  lemma OddFactor(five: nat, f: nat, x: nat)
    requires five % 2 == 1
    ensures five * (2 * f + 1) - 2 * x != 0
  {
    var k := five / 2;
    assert five * (2 * f + 1) == 2 * (five * f + k) + 1;
  }

  lemma GapFactor(two: nat, five: nat, rest: nat, f: nat, n: nat)
    ensures two * five - (2 * (two * rest * n) - 2 * (two * five * f))
         == two * (five * (2 * f + 1) - 2 * (rest * n))
  {
    MulAssoc(two, rest, n);
    MulAssoc(two, five, f);
    assert five * (2 * f + 1) == 2 * (five * f) + five;
  }

  lemma MarginProduct(unit: nat, gap: int, two: nat, five: nat)
    requires unit >= 8192 && five <= 3125 && two >= 1 && gap >= two
    ensures unit * gap > two * five
  {
    MulLe(8192, unit, gap);
    MulLe(five, 3125, two);
  }

  // The state of the printer before its j-th digit, with n for the digits already printed:
  // num = 10^j (f + 1/2 - 2^b n / 10^(j-1)).
  ghost predicate PrinterState(num: nat, j: nat, b: nat, f: nat, n: nat)
    requires j >= 1
  {
    num == Pow10(j) * f + 5 * Pow10(j - 1) - 10 * (Pow2(b) * n)
    && num < 10 * Pow2(b) && (j > 1 ==> num > Pow10(j))
  }

  ghost predicate PrintsWell(ds: seq<nat>, j: nat, b: nat, f: nat, n: nat)
    requires j >= 1 && b <= 32
  {
    AreDigits(ds)
    && ReadsBack(n * Pow10(|ds|) + Nat(ds), Pow10(j - 1 + |ds|), f, Pow2(b), Pow2(32 - b))
  }

  // Extending the printed digits by one.
  lemma PrintsWellOne(d: nat, j: nat, b: nat, f: nat, n: nat)
    requires 1 <= j && b <= 32 && d < 10
    requires ReadsBack(10 * n + d, Pow10(j), f, Pow2(b), Pow2(32 - b))
    ensures PrintsWell([d], j, b, f, n)
  {
    hide ReadsBack;
    NatPush([], d);
    assert [] + [d] == [d];
    assert Pow10(1) == 10;
  }

  lemma PrintsWellMore(d: nat, ds: seq<nat>, j: nat, b: nat, f: nat, n: nat)
    requires 1 <= j && b <= 32 && d < 10
    requires PrintsWell(ds, j + 1, b, f, 10 * n + d)
    ensures PrintsWell([d] + ds, j, b, f, n)
  {
    hide ReadsBack;
    NatAppend([d], ds);
    NatPush([], d);
    assert [] + [d] == [d];
    Regroup(n, d, Pow10(|ds|), Nat(ds));
  }

  lemma Regroup(n: nat, d: nat, p: nat, m: nat)
    ensures (10 * n + d) * p + m == n * (10 * p) + (d * p + m)
  {
  }

  // One digit, without rounding or with it: the digit d of v, and what is left of it.
  lemma DigitStep(v: nat, one: nat, a: int, n: nat)
    requires one > 0 && v < 10 * one && v == a - 10 * (one * n)
    ensures var d := v / one;
            d < 10 && v % one == a - one * (10 * n + d) && v % one < one
  {
    var d := v / one;
    DivBounds(v, one);
    if d >= 10 {
      MulLe(10, d, one);
    }
    MulAdd(one, 10 * n, d);
  }

  // Before the rounding digit.
  lemma EarlyStep(num: nat, j: nat, b: nat, f: nat, n: nat)
    requires 1 <= b <= 19 && 1 <= j < LastDigit(b) && f < Pow2(b)
    requires PrinterState(num, j, b, f, n)
    ensures var one, n' := Pow2(b), 10 * n + Digit(num, j, Pow2(b));
      Digit(num, j, one) < 10 && Allowed(j + 1) == Pow10(j + 1)
      && (if Next(num, j, one) > Pow10(j + 1) then PrinterState(Next(num, j, one), j + 1, b, f, n')
          else ReadsBack(n', Pow10(j), f, one, Pow2(32 - b)))
  {
    hide Pow2, Pow10, Allowed, ReadsBack, Adjusted;
    var one := Pow2(b);
    BitFacts(b);
    AllowedPow10(j + 1);
    NotAdjusted(num, j, b);
    TenTimes(j);
    NextState(num, one, Pow10(j), Pow10(j - 1), f, n);
    var n', next := 10 * n + Digit(num, j, one), Next(num, j, one);
    if next <= Pow10(j + 1) {
      EarlyEnd(j, b, f, n');
    }
  }

  lemma NotAdjusted(num: nat, j: nat, b: nat)
    requires 1 <= b <= 19 && 1 <= j < LastDigit(b)
    ensures Adjusted(num, j, Pow2(b)) == num
  {
    hide Pow2, Pow10, Allowed, Rounder;
    BitFacts(b);
    AllowedPow10(j);
    Pow10Mono(j, LastDigit(b) - 1);
  }

  lemma NextState(num: nat, one: nat, p: nat, h: nat, f: nat, n: nat)
    requires one > 0 && num < 10 * one && p == 10 * h
    requires num == p * f + 5 * h - 10 * (one * n)
    ensures var n' := 10 * n + num / one;
            num / one < 10 && num % one < one
            && 10 * (num % one) == 10 * p * f + 5 * p - 10 * (one * n')
            && 10 * (num % one) == 10 * (p * f + 5 * h - one * n')
  {
    DigitStep(num, one, p * f + 5 * h, n);
    MulAssoc(10, p, f);
  }

  lemma TenTimes(j: nat)
    ensures Pow10(j + 1) == 10 * Pow10(j) && (j > 0 ==> Pow10(j) == 10 * Pow10(j - 1))
  {
  }

  lemma EarlyEnd(j: nat, b: nat, f: nat, n: nat)
    requires 1 <= b <= 19 && 1 <= j < LastDigit(b)
    requires 0 <= 10 * (Pow10(j) * f + 5 * Pow10(j - 1) - Pow2(b) * n) <= Pow10(j + 1)
    ensures ReadsBack(n, Pow10(j), f, Pow2(b), Pow2(32 - b))
  {
    hide Pow2, Pow10;
    TenTimes(j);
    BitFacts(b);
    EarlyMargin(j, b, f, n);
  }

  lemma AllowedPow10(j: nat)
    requires 1 <= j <= 7
    ensures Allowed(j) == Pow10(j)
  {
    hide Allowed, Pow10;
    AllowedValues();
    Pow10Values();
  }

  // At the rounding digit.
  lemma LastStep(num: nat, b: nat, f: nat, n: nat)
    requires 1 <= b <= 19 && f < Pow2(b)
    requires PrinterState(num, LastDigit(b), b, f, n)
    ensures var one, k, n' := Pow2(b), LastDigit(b), 10 * n + Digit(num, LastDigit(b), Pow2(b));
      Digit(num, k, one) < 10 && Next(num, k, one) <= Allowed(k + 1)
      && ReadsBack(n', Pow10(k), f, one, Pow2(32 - b))
  {
    hide Pow2, Pow10, Allowed, Rounder, ReadsBack, PrinterState, Adjusted;
    var one, k := Pow2(b), LastDigit(b);
    BitFacts(b);
    AllowedPow10(k + 1);
    TenTimes(k);
    RoundingAdjusts(num, b, f, n);
    var v := Adjusted(num, k, one);
    DigitStep(v, one, Pow10(k) * f + one / 2, n);
    LastEnd(Pow10(k), f, 10 * n + Digit(num, k, one), one, Pow2(32 - b), Low(v, one));
  }

  lemma RoundingAdjusts(num: nat, b: nat, f: nat, n: nat)
    requires 1 <= b <= 19 && f < Pow2(b)
    requires PrinterState(num, LastDigit(b), b, f, n)
    ensures var v := Adjusted(num, LastDigit(b), Pow2(b));
            v < 10 * Pow2(b) && v == Pow10(LastDigit(b)) * f + Pow2(b) / 2 - 10 * (Pow2(b) * n)
  {
    hide Pow2, Pow10, Allowed, Rounder;
    var one, k := Pow2(b), LastDigit(b);
    BitFacts(b);
    AllowedPow10(k);
    RounderOf(b);
    TenTimes(k);
    var v := num + one / 2 - 5 * Pow10(k - 1);
    FirstState(num, b, f, n);
    Wrap32(v);
  }

  lemma Wrap32(v: nat)
    ensures v < TWO32 ==> v % TWO32 == v
  {
  }

  // When the first digit is the rounding digit, num ends in 5.
  lemma FirstState(num: nat, b: nat, f: nat, n: nat)
    requires 1 <= b <= 19 && PrinterState(num, LastDigit(b), b, f, n)
    ensures LastDigit(b) == 1 ==> num >= 5 && Pow10(0) == 1
  {
    hide Pow2;
    if LastDigit(b) == 1 {
      assert Pow10(1) == 10 && Pow10(0) == 1;
      var m := f - Pow2(b) * n;
      assert num == 10 * m + 5;
    }
  }

  lemma RounderOf(b: nat)
    requires 1 <= b <= 19
    ensures Rounder(Pow2(b) / 2, 5) == 5 * Pow10(LastDigit(b) - 1)
  {
    hide Pow2, Pow10;
    BitFacts(b);
    Pow10Values();
    var k := LastDigit(b) - 1;
    if k > 0 {
      TenTimes(k - 1);
    }
    TenTimes(k);
    RounderStart(b);
    RounderValue(Pow2(b) / 2, 0, k);
  }

  lemma RounderStart(b: nat)
    requires 1 <= b <= 19
    ensures LastDigit(b) > 1 ==> 5 * Pow10(LastDigit(b) - 2) < Pow2(b) / 2
  {
    hide Pow2, Pow10;
    Pow2Values();
    Pow10Values();
  }

  lemma LargeProduct(unit: nat, gap: nat, q: nat)
    requires unit >= 8192 && 10 * gap >= q && q > 0
    ensures unit * gap > q
  {
    MulLe(8192, unit, gap);
    MulSwap(gap, unit);
  }

  lemma LastEnd(q: nat, f: nat, n: nat, one: nat, unit: nat, low: nat)
    requires low < one < q && 10 * (q - one) >= q && unit >= 8192
    requires low == q * f + one / 2 - one * n && one % 2 == 0
    ensures ReadsBack(n, q, f, one, unit)
  {
    var a, c := one * n, q * f;
    var gap := q - (2 * a - 2 * c);
    assert gap == q - one + 2 * low;
    LargeProduct(unit, gap, q);
  }

  lemma {:induction false} PrinterReadsBack(num: nat, j: nat, b: nat, f: nat, n: nat)
    requires 1 <= b <= 19 && 1 <= j <= LastDigit(b) && f < Pow2(b) <= 0x1000_0000
    requires PrinterState(num, j, b, f, n)
    ensures PrintsWell(PrintedDigits(num, j, Pow2(b)), j, b, f, n)
    decreases 12 - j
  {
    hide Pow2, Pow10, Allowed, Digit, Next, PrintsWell, ReadsBack, PrinterState;
    var one := Pow2(b);
    var d, next := Digit(num, j, one), Next(num, j, one);
    if j == LastDigit(b) {
      LastStep(num, b, f, n);
      PrintsWellOne(d, j, b, f, n);
    } else {
      EarlyStep(num, j, b, f, n);
      if next > Pow10(j + 1) {
        PrinterReadsBack(next, j + 1, b, f, 10 * n + d);
        PrintsWellMore(d, PrintedDigits(next, j + 1, one), j, b, f, n);
      } else {
        PrintsWellOne(d, j, b, f, n);
      }
    }
  }

  // ----- The round trip -------------------------------------------------------------------

  lemma ReadPrinted(a: seq<nat>, c: seq<nat>, b: nat)
    requires AreDigits(a) && AreDigits(c) && |a| > 0 && 1 <= b <= 31
    ensures ReadText(DecimalString(a, c), false, 0, b)
         == Success(Capped(FixedValue(Nat(a) * Pow10(|c|) + Nat(c), Pow10(|c|), Pow2(32 - b))))
  {
    hide ToFixed, Scale, FixedValue, DecimalString, Preparse, Digits, Pow2;
    var t := DecimalString(a, c);
    ReadDecimalString(a, c, false, 0);
    assert t[..|t|] == t;
    ReadFixedExact(a + c, |a|, b);
    NatAppend(a, c);
    assert Numerator(a + c, |a|) == Nat(a) * Pow10(|c|) + Nat(c);
    assert Denominator(a + c, |a|) == Pow10(|c|);
  }

  ghost predicate ReadsBackAs(x: nat, b: nat, y: nat)
    requires 1 <= b <= MAX_FRAC_BITS
  {
    ReadText(Real2Text(x, b), false, 0, b) == Success(Reading(y, false))
  }

  lemma HighLow(x: nat, one: nat)
    requires one > 0
    ensures x == High(x, one) * one + Low(x, one)
  {
    DivBounds(x, one);
  }

  lemma PrintedInteger(x: nat, b: nat)
    requires 1 <= b <= 19 && x < TWO32 && Low(x, Pow2(b)) == 0
    ensures ReadsBackAs(x, b, x)
  {
    hide ReadText, Pow2, FixedValue, High, Low, PrintedDigits;
    var one := Pow2(b);
    var a := DigitsOf(High(x, one));
    HighLow(x, one);
    BitFacts(b);
    NatDigitsOf(High(x, one));
    ReadPrinted(a, [], b);
    assert Pow10(0) == 1 && Nat([]) == 0;
    ReadsBackValue(High(x, one), 0, 1, 0, one, Pow2(32 - b));
    assert Real2Text(x, b) == DecimalString(a, []);
  }

  lemma PrintedFraction(x: nat, b: nat)
    requires 1 <= b <= 19 && x < TWO32 && Low(x, Pow2(b)) != 0
    ensures ReadsBackAs(x, b, x)
  {
    hide ReadText, Pow2, FixedValue, High, Low, PrintedDigits, ReadsBack;
    var one := Pow2(b);
    var a, f := DigitsOf(High(x, one)), Low(x, one);
    OneBound(b);
    var c := PrintedDigits(10 * f + 5, 1, one);
    HighLow(x, one);
    BitFacts(b);
    NatDigitsOf(High(x, one));
    FirstPrinterState(b, f);
    PrinterReadsBack(10 * f + 5, 1, b, f, 0);
    assert 0 * Pow10(|c|) + Nat(c) == Nat(c);
    ReadPrinted(a, c, b);
    ReadsBackValue(High(x, one), Nat(c), Pow10(|c|), f, one, Pow2(32 - b));
    CharDigitsShow(c);
    assert Real2Text(x, b) == DecimalString(a, c);
  }

  lemma FirstPrinterState(b: nat, f: nat)
    requires f < Pow2(b)
    ensures PrinterState(10 * f + 5, 1, b, f, 0)
  {
    hide Pow2;
    assert Pow10(1) == 10 && Pow10(0) == 1;
  }

  // With 1 to 19 bits of fraction every 32-bit number is printed so that it reads back.
  lemma Real2RoundTrip(x: nat, b: nat)
    requires 1 <= b <= 19 && x < TWO32
    ensures ReadsBackAs(x, b, x)
  {
    hide ReadsBackAs, Low, Pow2;
    if Low(x, Pow2(b)) == 0 {
      PrintedInteger(x, b);
    } else {
      PrintedFraction(x, b);
    }
  }

  // ----- As few digits as needed ----------------------------------------------------------

  // The decimal m / 10^k is more than half a unit away from f / one.
  predicate TooFar(m: nat, k: nat, f: nat, one: nat) {
    2 * (one * m) + Pow10(k) < 2 * (Pow10(k) * f) || 2 * (Pow10(k) * f) + Pow10(k) < 2 * (one * m)
  }

  // When the j-th digit is printed, no decimal with fewer digits would do.
  lemma FewerTooFar(num: nat, j: nat, b: nat, f: nat, n: nat, m: nat)
    requires 1 <= b <= 32 && j >= 1 && 0 < f < Pow2(b) && PrinterState(num, j, b, f, n) && (j == 1 ==> n == 0)
    ensures TooFar(m, j - 1, f, Pow2(b))
  {
    hide Pow2, Pow10;
    var one, p := Pow2(b), Pow10(j - 1);
    TenTimes(j - 1);
    MulAssoc(10, p, f);
    if m <= n {
      MulLe(m, n, one);
      if j == 1 {
        assert Pow10(0) == 1 by { PowerOfNone(); }
        assert m == 0;
      }
    } else {
      MulLe(n + 1, m, one);
      MulAdd(one, n, 1);
    }
  }

  lemma PowerOfNone()
    ensures Pow10(0) == 1
  {
  }

  lemma {:induction false} PrintsShortest(num: nat, j: nat, b: nat, f: nat, n: nat, k: nat, m: nat)
    requires 1 <= b <= 19 && 1 <= j <= LastDigit(b) && 0 < f < Pow2(b) <= 0x1000_0000
    requires PrinterState(num, j, b, f, n) && (j == 1 ==> n == 0)
    requires j - 1 <= k < j - 1 + |PrintedDigits(num, j, Pow2(b))|
    ensures TooFar(m, k, f, Pow2(b))
    decreases 12 - j
  {
    hide Pow2, Pow10, Allowed, Digit, Next, ReadsBack, PrinterState, TooFar;
    var one := Pow2(b);
    var d, next := Digit(num, j, one), Next(num, j, one);
    if k == j - 1 {
      FewerTooFar(num, j, b, f, n, m);
    } else if j == LastDigit(b) {
      LastStep(num, b, f, n);
      assert false;
    } else {
      EarlyStep(num, j, b, f, n);
      PrintsShortest(next, j + 1, b, f, 10 * n + d, k, m);
    }
  }

  // No decimal with fewer digits than c is within half a unit of f / one.
  ghost predicate IsShortest(c: seq<nat>, f: nat, one: nat) {
    |c| > 0 && forall k: nat, m: nat :: k < |c| ==> TooFar(m, k, f, one)
  }

  ghost predicate IsPrinted(text: string, i: nat, c: seq<nat>) {
    AreDigits(c) && text == Show(DigitsOf(i)) + ['.'] + Show(c)
  }

  // A number with a fraction is printed with so few digits that any decimal with fewer of them
  // is nearer to another number.
  lemma Real2Shortest(x: nat, b: nat)
    requires 1 <= b <= 19 && x < TWO32
    ensures Low(x, Pow2(b)) == 0 ==> Real2Text(x, b) == Show(DigitsOf(High(x, Pow2(b))))
    ensures Low(x, Pow2(b)) > 0 ==>
      exists c :: IsPrinted(Real2Text(x, b), High(x, Pow2(b)), c) && IsShortest(c, Low(x, Pow2(b)), Pow2(b))
  {
    hide Pow2, PrintedDigits, IsShortest, IsPrinted, High, Low;
    var one := Pow2(b);
    var f := Low(x, one);
    OneBound(b);
    if f > 0 {
      var c := PrintedDigits(10 * f + 5, 1, one);
      ShortestDigits(b, f);
      TextPrinted(x, b, c);
    } else {
      TextOfInteger(x, b);
    }
  }

  lemma TextOfInteger(x: nat, b: nat)
    requires b <= MAX_FRAC_BITS && Low(x, Pow2(b)) == 0
    ensures Real2Text(x, b) == Show(DigitsOf(High(x, Pow2(b))))
  {
    hide Pow2, PrintedDigits, High, Low, DigitsOf;
  }

  lemma TextPrinted(x: nat, b: nat, c: seq<nat>)
    requires b <= MAX_FRAC_BITS && Low(x, Pow2(b)) > 0 && Pow2(b) <= 0x1000_0000
    requires c == PrintedDigits(10 * Low(x, Pow2(b)) + 5, 1, Pow2(b)) && AreDigits(c)
    ensures IsPrinted(Real2Text(x, b), High(x, Pow2(b)), c)
  {
    hide Pow2, PrintedDigits, High, Low, DigitsOf, CharDigits, Show;
    CharDigitsShow(c);
  }

  lemma ShortestDigits(b: nat, f: nat)
    requires 1 <= b <= 19 && 0 < f < Pow2(b) <= 0x1000_0000
    ensures var c := PrintedDigits(10 * f + 5, 1, Pow2(b)); AreDigits(c) && IsShortest(c, f, Pow2(b))
  {
    hide Pow2, PrintedDigits, TooFar, PrinterState, PrintsWell;
    var c := PrintedDigits(10 * f + 5, 1, Pow2(b));
    BitFacts(b);
    FirstPrinterState(b, f);
    PrinterReadsBack(10 * f + 5, 1, b, f, 0);
    DigitsPrinted(c, 1, b, f, 0);
    forall k: nat, m: nat | k < |c| ensures TooFar(m, k, f, Pow2(b)) {
      PrintsShortest(10 * f + 5, 1, b, f, 0, k, m);
    }
  }

  lemma DigitsPrinted(c: seq<nat>, j: nat, b: nat, f: nat, n: nat)
    requires j >= 1 && b <= 32 && PrintsWell(c, j, b, f, n)
    ensures AreDigits(c)
  {
  }

  // ----- From 20 bits on, some number reads back as its successor -----------------------------

  ghost predicate Misprints(b: nat, x: nat) {
    1 <= b <= MAX_FRAC_BITS && x < TWO32 && ReadsBackAs(x, b, x + 1)
  }

  lemma PlainDigit(num: nat, j: nat, one: nat, d: nat, low: nat)
    requires 1 <= j <= 10 && 0 < one <= 0x1000_0000 && Allowed(j) <= one
    requires num == one * d + low && low < one
    ensures PrintedDigits(num, j, one)
         == if 10 * low > Allowed(j + 1) then [d] + PrintedDigits(10 * low, j + 1, one) else [d]
  {
    hide Allowed, Rounder;
    DivUnique(num, one, d);
    DivBounds(num, one);
    assert Adjusted(num, j, one) == num;
    assert Low(num, one) == low;
  }

  lemma PushDigit(ds: seq<nat>, n: nat, d: nat, more: seq<nat>)
    requires Nat(ds) == n && more == ds + [d]
    ensures Nat(more) == 10 * n + d
  {
    NatPush(ds, d);
  }

  lemma Pow2Larger()
    ensures Pow2(20) == 1048576 && Pow2(21) == 2097152 && Pow2(22) == 4194304
    ensures Pow2(23) == 8388608 && Pow2(24) == 16777216 && Pow2(25) == 33554432
    ensures Pow2(26) == 67108864 && Pow2(27) == 134217728 && Pow2(28) == 268435456
    ensures Pow2(12) == 4096 && Pow2(11) == 2048 && Pow2(10) == 1024 && Pow2(9) == 512
    ensures Pow2(8) == 256 && Pow2(7) == 128 && Pow2(6) == 64 && Pow2(5) == 32 && Pow2(4) == 16
  {
    hide Pow2;
    Pow2Values();
    Pow2Step(19, 524288);
    Pow2Step(20, 1048576);
    Pow2Step(21, 2097152);
    Pow2Step(22, 4194304);
    Pow2Step(23, 8388608);
    Pow2Step(24, 16777216);
    Pow2Step(25, 33554432);
    Pow2Step(26, 67108864);
    Pow2Step(27, 134217728);
  }

  // A fraction f whose digits read as f + 1.
  lemma Misread(b: nat, f: nat, ds: seq<nat>, q: nat)
    requires 20 <= b <= MAX_FRAC_BITS && 0 < f < Pow2(b) <= 0x1000_0000
    requires ds == PrintedDigits(10 * f + 5, 1, Pow2(b)) && AreDigits(ds) && Pow10(|ds|) == q
    requires var unit := Pow2(32 - b);
             2 * unit * q * (f + 1) <= Nat(ds) * TWO33 + q + unit * q < 2 * unit * q * (f + 2)
    ensures Misprints(b, f)
  {
    hide ReadText, Pow2, High, Low, PrintedDigits, FixedValue, DigitsOf, Nat, Pow10;
    var one, unit := Pow2(b), Pow2(32 - b);
    HighLowOfSmall(f, one);
    ZeroDigit();
    ReadPrinted([0], ds, b);
    assert 0 * q + Nat(ds) == Nat(ds);
    MisreadValue(Nat(ds), q, f, unit);
    CharDigitsShow(ds);
    assert Real2Text(f, b) == DecimalString([0], ds);
  }

  lemma HighLowOfSmall(f: nat, one: nat)
    requires f < one
    ensures High(f, one) == 0 && Low(f, one) == f
  {
    DivUnique(f, one, 0);
    DivBounds(f, one);
  }

  lemma ZeroDigit()
    ensures DigitsOf(0) == [0] && Nat([0]) == 0
  {
    NatPush([], 0);
    assert [] + [0] == [0];
  }

  lemma MisreadValue(n: nat, q: nat, f: nat, unit: nat)
    requires q >= 1 && unit >= 1
    requires 2 * unit * q * (f + 1) <= n * TWO33 + q + unit * q < 2 * unit * q * (f + 2)
    ensures FixedValue(n, q, unit) == f + 1
  {
    PositiveProduct(unit, q);
    var d := 2 * (unit * q);
    assert 2 * unit * q == d;
    MulAdd(d, f + 1, 1);
    DivUnique(n * TWO33 + q + unit * q, d, f + 1);
  }

  // The same with the numbers for what they stand for.
  lemma MisreadAs(b: nat, f: nat, ds: seq<nat>, n: nat, q: nat, one: nat, unit: nat)
    requires 20 <= b <= MAX_FRAC_BITS && Pow2(b) == one <= 0x1000_0000 && Pow2(32 - b) == unit && 0 < f < one
    requires ds == PrintedDigits(10 * f + 5, 1, one) && AreDigits(ds) && Nat(ds) == n && Pow10(|ds|) == q
    requires 2 * unit * q * (f + 1) <= n * TWO33 + q + unit * q < 2 * unit * q * (f + 2)
    ensures Misprints(b, f)
  {
    hide Pow2, PrintedDigits, Nat, Pow10, Misprints;
    Misread(b, f, ds, q);
  }

  lemma Misprint20()
    ensures Misprints(20, 4565)
  {
    hide PrintedDigits, Allowed, Pow2, Misprints, Nat, Pow10;
    AllowedValues();
    PlainDigit(45655, 1, 1048576, 0, 45655);
    PlainDigit(456550, 2, 1048576, 0, 456550);
    PlainDigit(4565500, 3, 1048576, 4, 371196);
    PlainDigit(3711960, 4, 1048576, 3, 566232);
    PlainDigit(5662320, 5, 1048576, 5, 419440);
    PlainDigit(4194400, 6, 1048576, 4, 96);
    FixedPoint.NatOfNone([]);
    PushDigit([], 0, 0, [0]);
    PushDigit([0], 0, 0, [0, 0]);
    PushDigit([0, 0], 0, 4, [0, 0, 4]);
    PushDigit([0, 0, 4], 4, 3, [0, 0, 4, 3]);
    PushDigit([0, 0, 4, 3], 43, 5, [0, 0, 4, 3, 5]);
    PushDigit([0, 0, 4, 3, 5], 435, 4, [0, 0, 4, 3, 5, 4]);
    var ds := PrintedDigits(45655, 1, 1048576);
    assert ds == [0, 0, 4, 3, 5, 4] && Nat(ds) == 4354;
    Pow2Larger();
    Pow10Values();
    MisreadAs(20, 4565, ds, 4354, 1000000, 1048576, 4096);
  }

  lemma Misprint21()
    ensures Misprints(21, 62222)
  {
    hide PrintedDigits, Allowed, Pow2, Misprints, Nat, Pow10;
    AllowedValues();
    PlainDigit(622225, 1, 2097152, 0, 622225);
    PlainDigit(6222250, 2, 2097152, 2, 2027946);
    PlainDigit(20279460, 3, 2097152, 9, 1405092);
    PlainDigit(14050920, 4, 2097152, 6, 1468008);
    PlainDigit(14680080, 5, 2097152, 7, 16);
    FixedPoint.NatOfNone([]);
    PushDigit([], 0, 0, [0]);
    PushDigit([0], 0, 2, [0, 2]);
    PushDigit([0, 2], 2, 9, [0, 2, 9]);
    PushDigit([0, 2, 9], 29, 6, [0, 2, 9, 6]);
    PushDigit([0, 2, 9, 6], 296, 7, [0, 2, 9, 6, 7]);
    var ds := PrintedDigits(622225, 1, 2097152);
    assert ds == [0, 2, 9, 6, 7] && Nat(ds) == 2967;
    Pow2Larger();
    Pow10Values();
    MisreadAs(21, 62222, ds, 2967, 100000, 2097152, 2048);
  }

  lemma Misprint22()
    ensures Misprints(22, 121131)
  {
    hide PrintedDigits, Allowed, Pow2, Misprints, Nat, Pow10;
    AllowedValues();
    PlainDigit(1211315, 1, 4194304, 0, 1211315);
    PlainDigit(12113150, 2, 4194304, 2, 3724542);
    PlainDigit(37245420, 3, 4194304, 8, 3690988);
    PlainDigit(36909880, 4, 4194304, 8, 3355448);
    PlainDigit(33554480, 5, 4194304, 8, 48);
    FixedPoint.NatOfNone([]);
    PushDigit([], 0, 0, [0]);
    PushDigit([0], 0, 2, [0, 2]);
    PushDigit([0, 2], 2, 8, [0, 2, 8]);
    PushDigit([0, 2, 8], 28, 8, [0, 2, 8, 8]);
    PushDigit([0, 2, 8, 8], 288, 8, [0, 2, 8, 8, 8]);
    var ds := PrintedDigits(1211315, 1, 4194304);
    assert ds == [0, 2, 8, 8, 8] && Nat(ds) == 2888;
    Pow2Larger();
    Pow10Values();
    MisreadAs(22, 121131, ds, 2888, 100000, 4194304, 1024);
  }

  lemma Misprint23()
    ensures Misprints(23, 376648)
  {
    hide PrintedDigits, Allowed, Pow2, Misprints, Nat, Pow10;
    AllowedValues();
    PlainDigit(3766485, 1, 8388608, 0, 3766485);
    PlainDigit(37664850, 2, 8388608, 4, 4110418);
    PlainDigit(41104180, 3, 8388608, 4, 7549748);
    PlainDigit(75497480, 4, 8388608, 9, 8);
    FixedPoint.NatOfNone([]);
    PushDigit([], 0, 0, [0]);
    PushDigit([0], 0, 4, [0, 4]);
    PushDigit([0, 4], 4, 4, [0, 4, 4]);
    PushDigit([0, 4, 4], 44, 9, [0, 4, 4, 9]);
    var ds := PrintedDigits(3766485, 1, 8388608);
    assert ds == [0, 4, 4, 9] && Nat(ds) == 449;
    Pow2Larger();
    Pow10Values();
    MisreadAs(23, 376648, ds, 449, 10000, 8388608, 512);
  }

  lemma Misprint24()
    ensures Misprints(24, 900936)
  {
    hide PrintedDigits, Allowed, Pow2, Misprints, Nat, Pow10;
    AllowedValues();
    PlainDigit(9009365, 1, 16777216, 0, 9009365);
    PlainDigit(90093650, 2, 16777216, 5, 6207570);
    PlainDigit(62075700, 3, 16777216, 3, 11744052);
    PlainDigit(117440520, 4, 16777216, 7, 8);
    FixedPoint.NatOfNone([]);
    PushDigit([], 0, 0, [0]);
    PushDigit([0], 0, 5, [0, 5]);
    PushDigit([0, 5], 5, 3, [0, 5, 3]);
    PushDigit([0, 5, 3], 53, 7, [0, 5, 3, 7]);
    var ds := PrintedDigits(9009365, 1, 16777216);
    assert ds == [0, 5, 3, 7] && Nat(ds) == 537;
    Pow2Larger();
    Pow10Values();
    MisreadAs(24, 900936, ds, 537, 10000, 16777216, 256);
  }

  lemma Misprint25()
    ensures Misprints(25, 1654233)
  {
    hide PrintedDigits, Allowed, Pow2, Misprints, Nat, Pow10;
    AllowedValues();
    PlainDigit(16542335, 1, 33554432, 0, 16542335);
    PlainDigit(165423350, 2, 33554432, 4, 31205622);
    PlainDigit(312056220, 3, 33554432, 9, 10066332);
    PlainDigit(100663320, 4, 33554432, 3, 24);
    FixedPoint.NatOfNone([]);
    PushDigit([], 0, 0, [0]);
    PushDigit([0], 0, 4, [0, 4]);
    PushDigit([0, 4], 4, 9, [0, 4, 9]);
    PushDigit([0, 4, 9], 49, 3, [0, 4, 9, 3]);
    var ds := PrintedDigits(16542335, 1, 33554432);
    assert ds == [0, 4, 9, 3] && Nat(ds) == 493;
    Pow2Larger();
    Pow10Values();
    MisreadAs(25, 1654233, ds, 493, 10000, 33554432, 128);
  }

  lemma Misprint26()
    ensures Misprints(26, 7650410)
  {
    hide PrintedDigits, Allowed, Pow2, Misprints, Nat, Pow10;
    Digits26();
    Pow2Larger();
    Pow10Values();
    MisreadAs(26, 7650410, PrintedDigits(76504105, 1, 67108864), 114, 1000, 67108864, 64);
  }

  lemma Digits26()
    ensures var ds := PrintedDigits(76504105, 1, 67108864); |ds| == 3 && AreDigits(ds) && Nat(ds) == 114
  {
    hide PrintedDigits, Allowed, Nat;
    AllowedValues();
    PlainDigit(76504105, 1, 67108864, 1, 9395241);
    PlainDigit(93952410, 2, 67108864, 1, 26843546);
    PlainDigit(268435460, 3, 67108864, 4, 4);
    FixedPoint.NatOfNone([]);
    PushDigit([], 0, 1, [1]);
    PushDigit([1], 1, 1, [1, 1]);
    PushDigit([1, 1], 11, 4, [1, 1, 4]);
    assert PrintedDigits(76504105, 1, 67108864) == [1, 1, 4];
  }

  lemma Misprint27()
    ensures Misprints(27, 6174015)
  {
    hide PrintedDigits, Allowed, Pow2, Misprints, Nat, Pow10;
    AllowedValues();
    PlainDigit(61740155, 1, 134217728, 0, 61740155);
    PlainDigit(617401550, 2, 134217728, 4, 80530638);
    PlainDigit(805306380, 3, 134217728, 6, 12);
    FixedPoint.NatOfNone([]);
    PushDigit([], 0, 0, [0]);
    PushDigit([0], 0, 4, [0, 4]);
    PushDigit([0, 4], 4, 6, [0, 4, 6]);
    var ds := PrintedDigits(61740155, 1, 134217728);
    assert ds == [0, 4, 6] && Nat(ds) == 46;
    Pow2Larger();
    Pow10Values();
    MisreadAs(27, 6174015, ds, 46, 1000, 134217728, 32);
  }

  lemma Misprint28()
    ensures Misprints(28, 21474836)
  {
    hide PrintedDigits, Allowed, Pow2, Misprints, Nat, Pow10;
    AllowedValues();
    PlainDigit(214748365, 1, 268435456, 0, 214748365);
    PlainDigit(2147483650, 2, 268435456, 8, 2);
    FixedPoint.NatOfNone([]);
    PushDigit([], 0, 0, [0]);
    PushDigit([0], 0, 8, [0, 8]);
    var ds := PrintedDigits(214748365, 1, 268435456);
    assert ds == [0, 8] && Nat(ds) == 8;
    Pow2Larger();
    Pow10Values();
    MisreadAs(28, 21474836, ds, 8, 100, 268435456, 16);
  }

  // cp_unparse_real2 and FixedPointArg are inverse on all 32-bit numbers exactly when the
  // number of bits of fraction is at most 19.
  lemma Real2RoundTripIff(b: nat)
    requires 1 <= b <= MAX_FRAC_BITS
    ensures (forall x: nat :: x < TWO32 ==> ReadsBackAs(x, b, x)) <==> b <= 19
  {
    hide ReadsBackAs;
    if b <= 19 {
      forall x: nat | x < TWO32 ensures ReadsBackAs(x, b, x) {
        Real2RoundTrip(x, b);
      }
    } else {
      var x := SomeMisprint(b);
      ReadsOnce(x, b);
    }
  }

  lemma ReadsOnce(x: nat, b: nat)
    requires 1 <= b <= MAX_FRAC_BITS && ReadsBackAs(x, b, x + 1)
    ensures !ReadsBackAs(x, b, x)
  {
  }

  lemma SomeMisprint(b: nat) returns (x: nat)
    requires 20 <= b <= MAX_FRAC_BITS
    ensures Misprints(b, x)
  {
    hide Misprints;
    match b
    case 20 => Misprint20(); x := 4565;
    case 21 => Misprint21(); x := 62222;
    case 22 => Misprint22(); x := 121131;
    case 23 => Misprint23(); x := 376648;
    case 24 => Misprint24(); x := 900936;
    case 25 => Misprint25(); x := 1654233;
    case 26 => Misprint26(); x := 7650410;
    case 27 => Misprint27(); x := 6174015;
    case _ => Misprint28(); x := 21474836;
  }

  // ----- The code -------------------------------------------------------------------------

  method CpUnparseReal2(x: nat, fracBits: nat) returns (sa: string)
    requires x < TWO32 && fracBits <= MAX_FRAC_BITS
    ensures sa == Real2Text(x, fracBits)
  {
    hide Pow2, PrintedDigits, CharDigits, Allowed, Low, High, Rounder, Digit, Next;
    OneBound(fracBits);
    var one := Pow2(fracBits);
    sa := Show(DigitsOf(High(x, one)));
    var num: nat := Low(x, one);
    if num == 0 {
      return;
    }
    sa := sa + ['.'];
    ghost var target := Real2Text(x, fracBits);
    num := 10 * num + 5;
    var allowed := 10;
    var rounder := FindRounder(one / 2);
    ghost var j := 1;
    AllowedOne();
    while true
      invariant 1 <= j <= 11 && allowed == Allowed(j)
      invariant sa + CharDigits(PrintedDigits(num, j, one)) == target
      decreases 12 - j
    {
      FractionUnfold(num, j, one);
      ghost var num0: nat := num;
      if allowed > one {
        num := (num + one / 2 - rounder) % TWO32;
      }
      assert num == Adjusted(num0, j, one);
      DigitOf(num0, j, one);
      sa := sa + [((48 + High(num, one)) % 256) as char];
      num := 10 * Low(num, one);
      AllowedSteps(j, allowed);
      allowed := 10 * allowed % TWO32;
      if num <= allowed {
        break;
      }
      AllowedEnds(j, num);
      j := j + 1;
    }
  }

  method FindRounder(half: nat) returns (rounder: nat)
    ensures rounder == Rounder(half, 5)
  {
    rounder := 5;
    while rounder < half
      invariant rounder > 0 && Rounder(half, rounder) == Rounder(half, 5)
      decreases half - rounder
    {
      rounder := 10 * rounder;
    }
  }

  lemma DigitOf(num: nat, j: nat, one: nat)
    requires j >= 1 && one > 0
    ensures Digit(num, j, one) == High(Adjusted(num, j, one), one)
    ensures Next(num, j, one) == 10 * Low(Adjusted(num, j, one), one)
  {
    hide Adjusted;
  }

  function DigitCharacter(num: nat, j: nat, one: nat): char
    requires j >= 1 && one > 0
  {
    ((48 + Digit(num, j, one)) % 256) as char
  }

  lemma FractionUnfold(num: nat, j: nat, one: nat)
    requires 1 <= j <= 11 && 0 < one <= 0x1000_0000
    ensures Next(num, j, one) <= Allowed(j + 1) ==>
      CharDigits(PrintedDigits(num, j, one)) == [DigitCharacter(num, j, one)]
    ensures Next(num, j, one) > Allowed(j + 1) ==> j < 11
    ensures Next(num, j, one) > Allowed(j + 1) ==>
      var rest := PrintedDigits(Next(num, j, one), j + 1, one);
      CharDigits(PrintedDigits(num, j, one)) == [DigitCharacter(num, j, one)] + CharDigits(rest)
  {
    hide Digit, Next, Allowed;
    if Next(num, j, one) > Allowed(j + 1) {
      AllowedEnds(j, Next(num, j, one));
      var rest := PrintedDigits(Next(num, j, one), j + 1, one);
      assert CharDigits([Digit(num, j, one)] + rest)
          == CharDigits([Digit(num, j, one)]) + CharDigits(rest);
    }
  }
}
