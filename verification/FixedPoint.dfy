/**
 `FixedPointArg` of `lib/args.cc`: a decimal number read into a binary fraction, digit by
 digit from the right.
 */
module FixedPoint {
  import opened Widths
  import opened NumberArg
  import opened Decimal
  import opened NumberText

  // ----- The accumulator ----------------------------------------------------------------

  // What the accumulator holds after the digits of a fraction, the last one first.
  function Accum(ds: seq<nat>): nat
    decreases |ds|
  {
    if |ds| == 0 then 0 else (Accum(ds[1..]) + ds[0] * TWO33) / 10
  }

  // Although every step truncates, nothing is lost but the final fraction.
  lemma {:induction false} AccumExact(ds: seq<nat>)
    requires AreDigits(ds)
    ensures Accum(ds) == Nat(ds) * TWO33 / Pow10(|ds|) < TWO33
    decreases |ds|
  {
    hide Nat, Pow10;
    NatBound(ds);
    BoundedQuotient(Nat(ds), Pow10(|ds|), TWO33);
    if |ds| == 0 {
      NatOfNone(ds);
    } else {
      AccumExact(ds[1..]);
      NatFirst(ds);
      AccumStep(Nat(ds[1..]), ds[0], Pow10(|ds| - 1));
    }
  }

  lemma NatFirst(ds: seq<nat>)
    requires |ds| > 0
    ensures Nat(ds) == ds[0] * Pow10(|ds| - 1) + Nat(ds[1..]) && Pow10(|ds|) == 10 * Pow10(|ds| - 1)
  {
    NatAppend([ds[0]], ds[1..]);
    NatPush([], ds[0]);
    assert [] + [ds[0]] == [ds[0]] && ds == [ds[0]] + ds[1..];
  }

  lemma AccumStep(f: nat, d: nat, q: nat)
    requires q >= 1
    ensures (f * TWO33 / q + d * TWO33) / 10 == (d * q + f) * TWO33 / (10 * q)
  {
    var x := f * TWO33 + d * TWO33 * q;
    DivAddMultiple(f * TWO33, d * TWO33, q);
    DivDiv(x, q, 10);
    assert x == (d * q + f) * TWO33;
  }

  lemma BoundedQuotient(a: nat, b: nat, c: nat)
    requires a < b && c > 0
    ensures a * c / b < c
  {
    DivBounds(a * c, b);
    MulSwap(a, c);
    MulLe(a + 1, b, c);
    MulAdd(c, a, 1);
    if a * c / b >= c {
      MulLe(c, a * c / b, b);
      MulSwap(b, c);
    }
  }

  lemma {:induction false} AccumZeros(n: nat, ds: seq<nat>)
    requires Accum(ds) == 0
    ensures Accum(ZeroDigits(n) + ds) == 0
  {
    if n == 0 {
      assert ZeroDigits(n) + ds == ds;
    } else {
      assert (ZeroDigits(n) + ds)[1..] == ZeroDigits(n - 1) + ds;
      AccumZeros(n - 1, ds);
    }
  }

  // ----- parse_fraction -----------------------------------------------------------------

  datatype Fixed = Fixed(ivalue: nat, fvalue: nat, range: bool)

  // The zeros that parse_fraction puts before the fraction digits when the adjusted count
  // of integer digits is not positive.
  function LeadingZeros(n: int, digits: nat): nat {
    if n <= 0 && n + digits <= 0 then 1 - n - digits else 0
  }

  // The wrapping increment of a 64-bit word.
  function Increment64(i: nat): nat {
    if i == TWO64 - 1 then 0 else i + 1
  }

  // The saturated integer part and the accumulator, after its final increment and carry.
  function Combine(integer: nat, accum: nat): Fixed {
    var ivalue := Saturated(integer);
    if accum + 1 < TWO33 then Fixed(ivalue, (accum + 1) / 2 % TWO32, integer >= TWO64)
    else Fixed(Increment64(ivalue), (accum + 1) / 2 % TWO32, integer >= TWO64 || ivalue + 1 == TWO64)
  }

  function FractionDigits(ds: seq<nat>, n: int): seq<nat> {
    if n > 0 then Rest(ds, n) else ZeroDigits(LeadingZeros(n, |ds|)) + ds
  }

  function ToFixed(ds: seq<nat>, n: int): Fixed {
    Combine(Nat(Padded(ds, if n > 0 then n else 0)), Accum(FractionDigits(ds, n)))
  }

  lemma CombineExact(integer: nat, accum: nat)
    requires accum < TWO33
    ensures var w, r := integer * TWO32 + (accum + 1) / 2, Combine(integer, accum);
            (r.range <==> w >= TWO96)
            && (!r.range ==> r.ivalue * TWO32 + r.fvalue == w && r.ivalue < TWO64 && r.fvalue < TWO32)
  {
  }

  // The number that digits with n of them before the point stand for, as a fraction.
  function Numerator(ds: seq<nat>, n: int): nat {
    if n > |ds| then Nat(ds) * Pow10(n - |ds|) else Nat(ds)
  }

  function Denominator(ds: seq<nat>, n: int): (q: nat)
    ensures q >= 1
  {
    if n > |ds| then 1 else Pow10(|ds| - n)
  }

  // 2^32 times a fraction, rounded to the nearest integer, halves up.
  function Rounded(p: nat, q: nat): nat
    requires q >= 1
  {
    (p * TWO33 + q) / (2 * q)
  }

  // An integer part and a fraction are rounded as one number.
  lemma RoundedSplit(i: nat, f: nat, q: nat)
    requires f < q
    ensures Rounded(i * q + f, q) == i * TWO32 + (f * TWO33 / q + 1) / 2
    ensures (f * TWO33 / q + 1) / 2 <= TWO32
  {
    var x := f * TWO33 + q;
    assert 1 * q == q;
    DivAddMultiple(f * TWO33, 1, q);
    DivDiv(x, q, 2);
    assert (i * q + f) * TWO33 + q == x + (i * TWO32) * (2 * q);
    DivAddMultiple(x, i * TWO32, 2 * q);
    BoundedQuotient(f, q, TWO33);
    assert q * 2 == 2 * q;
  }

  // parse_fraction loses nothing: with a nonnegative adjusted count of integer digits its
  // result is the number rounded to a multiple of 2^-32, and it reports a range error
  // exactly when that does not fit in 96 bits.
  lemma ToFixedExact(ds: seq<nat>, n: nat)
    requires AreDigits(ds)
    ensures var w := Rounded(Numerator(ds, n), Denominator(ds, n));
            var r := ToFixed(ds, n);
            (r.range <==> w >= TWO96)
            && (!r.range ==> r.ivalue * TWO32 + r.fvalue == w && r.ivalue < TWO64 && r.fvalue < TWO32)
  {
    hide Combine, Rounded, Numerator, Denominator;
    var i, rest := Nat(Padded(ds, n)), Rest(ds, n);
    var f, q := Nat(rest), Pow10(|rest|);
    FractionOfNonnegative(ds, n);
    NumberSplit(ds, n);
    NatBound(rest);
    AccumExact(rest);
    RoundedSplit(i, f, q);
    CombineExact(i, Accum(rest));
  }

  lemma FractionOfNonnegative(ds: seq<nat>, n: nat)
    ensures Accum(FractionDigits(ds, n)) == Accum(Rest(ds, n))
  {
    if n == 0 {
      if |ds| == 0 {
        AccumZeros(1, ds);
      } else {
        assert ZeroDigits(0) + ds == ds;
      }
    }
  }

  lemma NumberSplit(ds: seq<nat>, n: nat)
    ensures Numerator(ds, n) == Nat(Padded(ds, n)) * Pow10(|Rest(ds, n)|) + Nat(Rest(ds, n))
    ensures Denominator(ds, n) == Pow10(|Rest(ds, n)|)
  {
    hide Nat, Pow10;
    if n <= |ds| {
      assert ds == ds[..n] + ds[n..];
      NatAppend(ds[..n], ds[n..]);
    } else {
      NatAppend(ds, ZeroDigits(n - |ds|));
      NatZeros(n - |ds|);
      NatOfNone(Rest(ds, n));
      OneTimes(Nat(Padded(ds, n)));
    }
  }

  lemma OneTimes(x: nat)
    ensures x * Pow10(0) == x && Pow10(0) == 1
  {
  }

  // ----- A negative count of integer digits -----------------------------------------------

  // What the zeros should have made of the digits, and what they make of them.
  ghost predicate ReadsExactly(ds: seq<nat>, n: int) {
    var w, r := Rounded(Numerator(ds, n), Denominator(ds, n)), ToFixed(ds, n);
    (r.range <==> w >= TWO96) && (!r.range ==> r.ivalue * TWO32 + r.fvalue == w)
  }

  lemma {:induction false} NatLeadingZeros(n: nat, ds: seq<nat>)
    ensures Nat(ZeroDigits(n) + ds) == Nat(ds)
  {
    NatAppend(ZeroDigits(n), ds);
    NatZeros(n);
  }

  // With a negative count the number is less than one, and the zeros put before its digits
  // number at most one less than they should.
  lemma ToFixedNegative(ds: seq<nat>, n: int)
    requires AreDigits(ds) && n < 0
    ensures var q := Pow10(|ds| + LeadingZeros(n, |ds|));
            var r := ToFixed(ds, n);
            !r.range && r.ivalue * TWO32 + r.fvalue == Rounded(Nat(ds), q)
  {
    hide *;
    var x := ZeroDigits(LeadingZeros(n, |ds|)) + ds;
    NatLeadingZeros(LeadingZeros(n, |ds|), ds);
    AccumOfFraction(ds, n);
    ReadAsFraction(x);
  }

  lemma AccumOfFraction(ds: seq<nat>, n: int)
    requires AreDigits(ds) && n < 0
    ensures var x := ZeroDigits(LeadingZeros(n, |ds|)) + ds;
            AreDigits(x) && |x| == |ds| + LeadingZeros(n, |ds|)
            && ToFixed(ds, n) == Combine(0, Accum(x))
  {
    hide Accum, Combine;
    ZerosAreDigits(LeadingZeros(n, |ds|), ds);
    NatOfNone(Padded(ds, 0));
  }

  // Digits behind the point alone.
  lemma ReadAsFraction(x: seq<nat>)
    requires AreDigits(x)
    ensures var r := Combine(0, Accum(x));
            !r.range && r.ivalue * TWO32 + r.fvalue == Rounded(Nat(x), Pow10(|x|))
  {
    hide Rounded, Combine, Accum;
    var f, q := Nat(x), Pow10(|x|);
    NatBound(x);
    AccumExact(x);
    RoundedSplit(0, f, q);
    assert 0 * q + f == f;
    CombineExact(0, Accum(x));
  }

  lemma NatOfNone(ds: seq<nat>)
    ensures |ds| == 0 ==> Nat(ds) == 0
  {
  }

  lemma ZerosAreDigits(n: nat, ds: seq<nat>)
    requires AreDigits(ds)
    ensures AreDigits(ZeroDigits(n) + ds)
  {
  }

  // Dividing by ten or more once too little shows, unless both results round to zero.
  lemma RoundedDiffers(p: nat, q: nat, m: nat)
    requires q >= 1 && m >= 10 && p * TWO33 >= q
    ensures m * q >= 1 && Rounded(p, q) != Rounded(p, m * q)
  {
    hide Rounded, Rounds;
    MulLe(1, m, q);
    MulSwap(q, m);
    RoundsIs(p, q);
    RoundsIs(p, m * q);
    QuotientsDiffer(p * TWO33, q, m, m * q, Rounded(p, q), Rounded(p, m * q));
  }

  // r is x/2q, rounded.
  ghost predicate Rounds(x: nat, q: nat, r: nat) {
    2 * q * r <= x + q < 2 * q * r + 2 * q
  }

  lemma RoundsIs(p: nat, q: nat)
    requires q >= 1
    ensures Rounds(p * TWO33, q, Rounded(p, q))
  {
    DivBounds(p * TWO33 + q, 2 * q);
  }

  lemma QuotientsDiffer(x: nat, q: nat, m: nat, big: nat, r1: nat, r2: nat)
    requires q >= 1 && m >= 10 && big == m * q && x >= q && Rounds(x, q, r1) && Rounds(x, big, r2)
    ensures r1 != r2
  {
    MulLe(1, m, q);
    MulSwap(q, m);
    if x < big {
      OnlyOneIsZero(x, q, big, r1, r2);
    } else {
      LargerQuotient(x, q, m, big, r1, r2);
    }
  }

  lemma OnlyOneIsZero(x: nat, q: nat, big: nat, r1: nat, r2: nat)
    requires q >= 1 && q <= x < big && x + q < 2 * q * r1 + 2 * q && 2 * big * r2 <= x + big
    ensures r1 > 0 == r2
  {
    if r2 >= 1 {
      MulLe(1, r2, 2 * big);
    }
  }

  // 2mq r1 > m(x - q) >= x + mq >= 2mq r2, because x >= mq and m >= 10.
  lemma LargerQuotient(x: nat, q: nat, m: nat, big: nat, r1: nat, r2: nat)
    requires q >= 1 && m >= 10 && big == m * q && x >= big >= q
    requires x + q < 2 * q * r1 + 2 * q && 2 * big * r2 <= x + big
    ensures r1 != r2
  {
    MulLe(x - q + 1, 2 * q * r1, m);
    assert m * (2 * q * r1) == 2 * big * r1;
    assert m * (x - q + 1) == m * (x + 1) - big;
    MulLe(10, m, x + 1);
    assert (x + 1) * m == m * (x + 1);
  }

  // parse_fraction reads a number correctly exactly when its adjusted count of integer
  // digits is not negative, or it has a single digit, or what it reads rounds to zero.
  lemma ReadsExactlyIff(ds: seq<nat>, n: int)
    requires AreDigits(ds) && |ds| > 0
    ensures ReadsExactly(ds, n)
       <==> (n >= 0 || |ds| == 1 || Nat(ds) * TWO33 < Pow10(|ds| + LeadingZeros(n, |ds|)))
  {
    hide Rounded, ToFixed, Nat, Numerator, Denominator;
    if n >= 0 {
      ToFixedExact(ds, n);
    } else {
      ToFixedNegative(ds, n);
      NegativeSmall(ds, n);
      RoundedPair(Nat(ds), |ds| + LeadingZeros(n, |ds|), |ds| - n);
    }
  }

  // For one: the digits 12 with the point one place to the left of them are read as 0.12.
  lemma MisreadsLeadingZero(ds: seq<nat>)
    requires ds == [1, 2]
    ensures !ReadsExactly(ds, -1)
  {
    hide ReadsExactly;
    ReadsExactlyIff(ds, -1);
    NatPush([1], 2);
    NatPush([], 1);
    assert [] + [1] == [1] && [1] + [2] == ds;
    assert Nat([]) == 0;
    assert Pow10(2) == 100;
  }

  lemma RoundedPair(p: nat, a: nat, b: nat)
    requires a <= b
    ensures Rounded(p, Pow10(a)) == Rounded(p, Pow10(b)) <==> a == b || p * TWO33 < Pow10(a)
  {
    hide Rounded, Pow10;
    var q := Pow10(a);
    if a < b {
      Pow10Add(b - a, a);
      Pow10Tens(b - a);
      TimesTen(q, Pow10(b - a));
      if p * TWO33 >= q {
        RoundedDiffers(p, q, Pow10(b - a));
      } else {
        RoundedSmall(p, q);
        RoundedSmall(p, Pow10(b));
      }
    }
  }

  lemma Pow10Tens(n: nat)
    requires n > 0
    ensures Pow10(n) >= 10
  {
    assert Pow10(n) == 10 * Pow10(n - 1);
  }

  lemma TimesTen(q: nat, m: nat)
    requires m >= 10
    ensures m * q >= q
  {
    MulLe(1, m, q);
  }

  lemma RoundedSmall(p: nat, q: nat)
    requires q >= 1
    ensures p * TWO33 < q ==> Rounded(p, q) == 0
  {
    if p * TWO33 < q {
      DivUnique(p * TWO33 + q, 2 * q, 0);
    }
  }

  lemma NegativeSmall(ds: seq<nat>, n: int)
    requires AreDigits(ds) && |ds| > 0 && n < 0
    ensures Rounded(Numerator(ds, n), Denominator(ds, n)) < TWO96
    ensures Numerator(ds, n) == Nat(ds) && Denominator(ds, n) == Pow10(|ds| - n)
    ensures |ds| + LeadingZeros(n, |ds|) <= |ds| - n
    ensures |ds| + LeadingZeros(n, |ds|) == |ds| - n <==> |ds| == 1
  {
    NatBound(ds);
    Pow10Add(|ds|, -n);
    MulLe(1, Pow10(-n), Pow10(|ds|));
    RoundedSplit(0, Nat(ds), Pow10(|ds| - n));
    assert 0 * Pow10(|ds| - n) + Nat(ds) == Nat(ds);
  }

  // ----- FixedPointArg::underparse --------------------------------------------------------

  datatype Reading = Reading(value: nat, range: bool)

  // Rounding to b bits of fraction, once more: add half a unit, carry, and take the top.
  // The unit is 2^(32-b), and s is 2^b.
  function ScaleBy(r: Fixed, unit: nat, s: nat): Reading
    requires unit > 0
  {
    var mf := Add32(r.fvalue, unit / 2);
    var mi := if mf < r.fvalue then Increment64(r.ivalue) else r.ivalue;
    if r.range || mi < r.ivalue || mi >= unit then Reading(TWO32 - 1, true)
    else Reading(Assemble(mi, mf, unit, s), false)
  }

  // The integer part above the top bits of the fraction: (mi << b) | (mf >> (32 - b)).
  function Assemble(mi: nat, mf: nat, unit: nat, s: nat): nat
    requires unit > 0
  {
    MulNat(mi, s);
    mi * s + mf / unit
  }

  lemma MulNat(a: nat, b: nat)
    ensures a * b >= 0
  {
  }

  function Scale(r: Fixed, b: nat): Reading
    requires 1 <= b <= 32
  {
    if b < 32 then ScaleBy(r, Pow2(32 - b), Pow2(b))
    else if r.range || r.ivalue != 0 then Reading(TWO32 - 1, true)
    else Reading(r.fvalue, false)
  }

  function Capped(v: nat): Reading {
    if v < TWO32 then Reading(v, false) else Reading(TWO32 - 1, true)
  }

  // A reading is the number when it fits 32 bits, and the largest 32-bit number otherwise.
  lemma CappedAre(v: nat)
    ensures Capped(v) == if v <= 0xffff_ffff then Reading(v, false) else Reading(0xffff_ffff, true)
  {
  }

  // The nearest multiple of 2^-32, halves up.
  lemma RoundedIsNearest(p: nat, q: nat)
    requires q >= 1
    ensures var e := 2 * (p * 0x1_0000_0000) - 2 * (q * Rounded(p, q)); 0 <= e + q && e < q
  {
    NearestQuotient(p * TWO33, q, Rounded(p, q));
  }

  lemma NearestQuotient(x: nat, q: nat, r: nat)
    requires q >= 1 && r == (x + q) / (2 * q)
    ensures 0 <= x - 2 * (q * r) + q < 2 * q
  {
    DivBounds(x + q, 2 * q);
    MulAssoc(2, q, r);
  }

  lemma PowersOfTwo(b: nat)
    requires 1 <= b <= 31
    ensures Pow2(b) * Pow2(32 - b) == TWO32 && Pow2(32 - b) % 2 == 0
  {
    hide Pow2;
    Pow2Add(b, 32 - b);
    Pow2Of32();
    Pow2Even(32 - b);
  }

  lemma Pow2Of32()
    ensures Pow2(32) == TWO32
  {
    assert Pow2(8) == 0x100;
    Pow2Add(8, 8);
    Pow2Add(16, 16);
  }

  lemma Pow2Even(n: nat)
    ensures n > 0 ==> Pow2(n) % 2 == 0
  {
    if n > 0 {
      assert Pow2(n) == 2 * Pow2(n - 1);
    }
  }

  ghost predicate Scales(s: nat, unit: nat) {
    s * unit == TWO32
  }

  lemma ScaleByExact(r: Fixed, unit: nat, s: nat)
    requires Scales(s, unit) && unit % 2 == 0
    requires !r.range && r.ivalue < TWO64 && r.fvalue < TWO32
    ensures unit > 0
    ensures ScaleBy(r, unit, s) == Capped((r.ivalue * TWO32 + r.fvalue + unit / 2) / unit)
  {
    hide ScaleBy, Capped, Assemble, Scales;
    UnitBound(unit, s);
    var mf := Add32(r.fvalue, unit / 2);
    var mi := if mf < r.fvalue then r.ivalue + 1 else r.ivalue;
    CarrySplit(r.ivalue, r.fvalue, unit / 2);
    SplitTop(mi, mf, unit, s);
    CappedSum(mi, mf, unit, s);
    WrapAt(r, mi, mf, unit, s);
  }

  lemma UnitBound(unit: nat, s: nat)
    requires Scales(s, unit)
    ensures 0 < unit <= TWO32
  {
    MulLe(1, s, unit);
  }

  lemma SplitTop(mi: nat, mf: nat, unit: nat, s: nat)
    requires Scales(s, unit) && unit > 0
    ensures (mf + mi * TWO32) / unit == Assemble(mi, mf, unit, s)
  {
    MulAssoc(mi, s, unit);
    MulNat(mi, s);
    DivAddMultiple(mf, mi * s, unit);
  }

  lemma CarrySplit(i: nat, f: nat, h: nat)
    requires f < TWO32 && h < TWO32
    ensures var mf := Add32(f, h);
            i * TWO32 + f + h == mf + (if mf < f then i + 1 else i) * TWO32
  {
  }

  lemma WrapAt(r: Fixed, mi: nat, mf: nat, unit: nat, s: nat)
    requires !r.range && r.ivalue < TWO64 && 0 < unit <= TWO32
    requires mf == Add32(r.fvalue, unit / 2)
    requires mi == if mf < r.fvalue then r.ivalue + 1 else r.ivalue
    ensures ScaleBy(r, unit, s)
         == if mi >= unit then Reading(TWO32 - 1, true) else Reading(Assemble(mi, mf, unit, s), false)
  {
  }

  lemma CappedSum(mi: nat, mf: nat, unit: nat, s: nat)
    requires Scales(s, unit) && unit > 0 && mf < TWO32
    ensures Capped(Assemble(mi, mf, unit, s))
         == if mi >= unit then Reading(TWO32 - 1, true) else Reading(Assemble(mi, mf, unit, s), false)
  {
    TopBits(mf, s, unit);
    CapAt(mi, mf / unit, unit, s);
  }

  lemma CapAt(mi: nat, low: nat, unit: nat, s: nat)
    requires s * unit == TWO32 && low < s
    ensures mi * s + low < TWO32 <==> mi < unit
  {
    if mi >= unit {
      MulLe(unit, mi, s);
    } else {
      MulLe(mi + 1, unit, s);
      assert s * (mi + 1) == mi * s + s;
    }
  }

  lemma TopBits(m: nat, s: nat, g: nat)
    requires g > 0 && m < s * g
    ensures m / g < s
  {
    DivBounds(m, g);
    if m / g >= s {
      MulLe(s, m / g, g);
    }
  }

  lemma PositiveProduct(a: nat, b: nat)
    requires a >= 1 && b >= 1
    ensures a * b >= 1
  {
  }

  // floor(2^b V + 1/2 + 2^(b-33)) for V = p/q and a unit of 2^(32-b).
  function FixedValue(p: nat, q: nat, unit: nat): nat
    requires q >= 1 && unit >= 1
  {
    PositiveProduct(unit, q);
    (p * TWO33 + q + unit * q) / (2 * (unit * q))
  }

  // Rounding twice is rounding once, a little above the half.
  lemma RoundedTwice(p: nat, q: nat, unit: nat)
    requires q >= 1 && unit >= 1 && unit % 2 == 0
    ensures (Rounded(p, q) + unit / 2) / unit == FixedValue(p, q, unit)
  {
    var x := p * TWO33 + q;
    HalfUnits(q, unit);
    DivAddMultiple(x, unit / 2, 2 * q);
    DivDiv(x + unit * q, 2 * q, unit);
  }

  lemma HalfUnits(q: nat, unit: nat)
    requires unit % 2 == 0
    ensures unit / 2 * (2 * q) == unit * q && 2 * q * unit == 2 * (unit * q)
  {
    MulAssoc(unit / 2, 2, q);
    MulAssoc(2, q, unit);
    MulSwap(q, unit);
  }

  lemma RoundedTwiceLarge(w: nat, unit: nat)
    requires 1 <= unit <= TWO32 && w >= TWO96
    ensures (w + unit / 2) / unit >= TWO32
  {
    var x := w + unit / 2;
    DivBounds(x, unit);
    MulLe(unit, TWO32, TWO32);
    if x / unit < TWO32 {
      MulLe(x / unit, TWO32 - 1, unit);
    }
  }

  // What FixedPointArg reads from digits of which n are before the point.
  function ReadFixed(ds: seq<nat>, n: int, b: nat): Reading
    requires 1 <= b <= 32
  {
    Scale(ToFixed(ds, n), b)
  }

  // For 1 to 31 bits and a nonnegative count of integer digits, the number is rounded at
  // 1/2 + 2^(b-33) and saturates with a range error exactly when it does not fit.
  lemma ReadFixedExact(ds: seq<nat>, n: nat, b: nat)
    requires AreDigits(ds) && 1 <= b <= 31
    ensures ReadFixed(ds, n, b) == Capped(FixedValue(Numerator(ds, n), Denominator(ds, n), Pow2(32 - b)))
  {
    hide ToFixed, Rounded, FixedValue, Numerator, Denominator, ScaleBy, Pow2;
    var p, q, r, unit := Numerator(ds, n), Denominator(ds, n), ToFixed(ds, n), Pow2(32 - b);
    ToFixedExact(ds, n);
    PowersOfTwo(b);
    RoundedTwice(p, q, unit);
    if r.range {
      MulLe(1, Pow2(b), unit);
      RoundedTwiceLarge(Rounded(p, q), unit);
      OutOfRange(r, unit, Pow2(b));
    } else {
      ScaleByExact(r, unit, Pow2(b));
    }
  }

  lemma OutOfRange(r: Fixed, unit: nat, s: nat)
    requires unit > 0 && r.range
    ensures ScaleBy(r, unit, s) == Reading(TWO32 - 1, true)
  {
  }

  // The error is at most half a unit of the result and 2^-33 (both sides times 2^33 q).
  lemma FixedValueError(p: nat, q: nat, unit: nat)
    requires q >= 1 && unit >= 1
    ensures var v := 2 * (unit * q) * FixedValue(p, q, unit);
            v - p * TWO33 <= q + unit * q && p * TWO33 - v < unit * q - q
  {
    PositiveProduct(unit, q);
    DivBounds(p * TWO33 + q + unit * q, 2 * (unit * q));
  }

  // With 32 bits there is one rounding only.
  lemma ReadFixed32(ds: seq<nat>, n: nat)
    requires AreDigits(ds)
    ensures ReadFixed(ds, n, 32) == Capped(Rounded(Numerator(ds, n), Denominator(ds, n)))
  {
    hide ToFixed, Rounded, Numerator, Denominator;
    ToFixedExact(ds, n);
  }

  // ----- The code -------------------------------------------------------------------------

  /** fraction_accum<uint32_t>: a 64-bit accumulator, here kept below 2^33. */
  class FractionAccum {
    var accum: nat
    // The digits taken so far, which come last one first.
    ghost var digits: seq<nat>

    ghost predicate Valid()
      reads this
    {
      AreDigits(digits) && accum == Accum(digits)
    }

    constructor ()
      ensures Valid() && digits == []
    {
      accum, digits := 0, [];
    }

    // One more digit in front. The accumulator is 2^33 times the fraction, rounded down.
    method AddDecimalDigit(d: nat)
      requires Valid() && d < 10
      modifies this
      ensures Valid() && digits == [d] + old(digits)
      ensures accum == Nat(digits) * TWO33 / Pow10(|digits|)
    {
      hide Accum, Nat, Pow10;
      AccumPush(d, digits);
      accum, digits := (accum + d * TWO33) / 10, [d] + digits;
      AccumExact(digits);
    }

    // The fraction rounded to 32 bits, halves up, with the carry of one that rounds to a whole.
    method Extract() returns (value: nat, carry: bool)
      requires Valid()
      modifies this`accum
      ensures value < TWO32
      ensures value + (if carry then TWO32 else 0) == Rounded(Nat(digits), Pow10(|digits|))
      ensures value == (old(accum) + 1) / 2 % TWO32 && carry == (old(accum) + 1 >= TWO33)
    {
      hide Accum, Nat, Pow10, Rounded;
      NatBound(digits);
      AccumExact(digits);
      RoundedSplit(0, Nat(digits), Pow10(|digits|));
      assert 0 * Pow10(|digits|) + Nat(digits) == Nat(digits);
      accum := accum + 1;
      value := accum / 2 % TWO32;
      carry := accum >= TWO33;
    }

    predicate IsZero()
      reads this
    {
      accum == 0
    }
  }

  // What parse_fraction reads from a text.
  datatype Parsed = NoNumber | Number(end: nat, fixed: Fixed)

  function ParsedFraction(str: string, isSigned: bool, delta: int): Parsed {
    var p := Preparse(str, isSigned, delta);
    if p.end == 0 then NoNumber
    else Number(p.end, ToFixed(Digits(str[..p.end]), p.integerDigits))
  }

  // The text that is misread: .12e-1, as its digits with the count of integer digits -1.
  lemma MisreadsText(str: string)
    requires str == ['.', '1', '2', 'e', '-', '1']
    ensures ParsedFraction(str, false, 0) == Number(6, ToFixed([1, 2], -1)) && !ReadsExactly([1, 2], -1)
  {
    hide ToFixed, ReadsExactly;
    assert ScanMantissa(str, 1, 0, -1, true, 0) == ScanMantissa(str, 3, 0, 3, true, 0) == Mantissa(3, 3, 0);
    assert WithExponent(str, 3, 0) == Preparsed(6, -1);
    assert str[1..][1..] == str[2..] && str[2..][1..] == str[3..] && str[..6] == str;
    assert Digits(str[3..]) == [] && Digits(str[2..]) == [2] && Digits(str[1..]) == [1, 2];
    MisreadsLeadingZero([1, 2]);
  }

  method ParseFraction(str: string, isSigned: bool, delta: int)
    returns (end: nat, ivalue: nat, fvalue: nat, status: Status)
    ensures status.Inval? <==> ParsedFraction(str, isSigned, delta).NoNumber?
    ensures !status.Inval? ==>
      ParsedFraction(str, isSigned, delta) == Number(end, Fixed(ivalue, fvalue, status.Range?))
    ensures status.Inval? ==> end == 0
  {
    ivalue, fvalue := 0, 0;
    var integerDigits: int;
    end, integerDigits := PreparseFraction(str, isSigned, delta);
    if end == 0 {
      return end, ivalue, fvalue, Inval;
    }
    var range;
    ivalue, fvalue, range := ReadDigits(str[..end], integerDigits);
    status := if range then Range else Ok;
  }

  // The rest of parse_fraction, on the text of the number.
  method ReadDigits(t: string, n: int) returns (ivalue: nat, fvalue: nat, range: bool)
    ensures Fixed(ivalue, fvalue, range) == ToFixed(Digits(t), n)
  {
    hide Accum, Combine, Digits, Nat, Saturated, FractionDigits, LeadingZeros;
    ghost var ds := Digits(t);
    var integerDigits := n;
    var s: nat := 0;
    ivalue, range := 0, false;
    assert t[0..] == t;
    NatOfNone(Padded(ds, 0));
    SaturatedZero();
    if integerDigits > 0 {
      s, ivalue, range := ParseIntegerPortion(t, integerDigits);
      integerDigits := 0;
    }
    ghost var integer, rest := Nat(Padded(ds, if n > 0 then n else 0)), Digits(t[s..]);
    var fwork := new FractionAccum();
    integerDigits := SumFraction(t[s..], integerDigits, fwork);
    AddLeadingZeros(fwork, integerDigits, rest, if n > 0 then 0 else n);
    PositiveFraction(ds, n);
    CombineParts(integer, fwork.accum);
    var carry;
    fvalue, carry := fwork.Extract();
    if carry {
      ivalue := if ivalue == TWO64 - 1 then 0 else ivalue + 1;
      if ivalue == 0 {
        range := true;
      }
    }
  }

  lemma SaturatedZero()
    ensures Saturated(0) == 0
  {
  }

  method AddLeadingZeros(fwork: FractionAccum, digits: int, ghost rest: seq<nat>, ghost n: int)
    requires n <= 0 && digits == n + |rest| && fwork.Valid() && fwork.digits == rest
    modifies fwork
    ensures fwork.Valid()
    ensures fwork.accum == Accum(ZeroDigits(LeadingZeros(n, |rest|)) + rest)
  {
    hide Accum;
    var integerDigits := digits;
    ghost var zeros: nat := 0;
    assert ZeroDigits(0) + rest == rest;
    while integerDigits <= 0 && !fwork.IsZero()
      invariant integerDigits == digits + zeros
      invariant fwork.Valid() && fwork.digits == ZeroDigits(zeros) + rest
      invariant zeros > 0 ==> integerDigits <= 1
      decreases 1 - integerDigits
    {
      assert ZeroDigits(zeros + 1) + rest == [0] + (ZeroDigits(zeros) + rest);
      fwork.AddDecimalDigit(0);
      integerDigits := integerDigits + 1;
      zeros := zeros + 1;
    }
    ZerosEnough(zeros, LeadingZeros(n, |rest|), rest);
  }

  // The fraction digits, from the last back to the first.
  method SumFraction(t: string, integerDigits: int, fwork: FractionAccum) returns (n: int)
    requires fwork.Valid() && fwork.digits == []
    modifies fwork
    ensures fwork.Valid() && fwork.digits == Digits(t)
    ensures n == integerDigits + |Digits(t)|
  {
    hide Accum;
    var x: nat := 0;
    while x != |t| && !IsExponentChar(t[x])
      invariant x <= |t|
      invariant forall k :: 0 <= k < x ==> !IsExponentChar(t[k])
      decreases |t| - x
    {
      x := x + 1;
    }
    n := integerDigits;
    assert Digits(t[x..]) == [];
    while x != 0
      invariant x <= |t|
      invariant forall k :: 0 <= k < x ==> !IsExponentChar(t[k])
      invariant fwork.Valid() && fwork.digits == Digits(t[x..])
      invariant n == integerDigits + |Digits(t[x..])|
    {
      x := x - 1;
      assert t[x..][1..] == t[x + 1..];
      if IsDigit(t[x]) {
        fwork.AddDecimalDigit(DigitValue(t[x]));
        n := n + 1;
      }
    }
    assert t[0..] == t;
  }

  lemma AccumNone(ds: seq<nat>)
    ensures |ds| == 0 ==> Accum(ds) == 0
  {
  }

  lemma AccumPush(d: nat, ds: seq<nat>)
    ensures Accum([d] + ds) == (Accum(ds) + d * TWO33) / 10
  {
    assert ([d] + ds)[1..] == ds;
  }

  // Once the accumulator is zero, further zeros change nothing.
  lemma ZerosEnough(a: nat, b: nat, ds: seq<nat>)
    requires a <= b && (a == b || Accum(ZeroDigits(a) + ds) == 0)
    ensures Accum(ZeroDigits(a) + ds) == Accum(ZeroDigits(b) + ds)
  {
    hide Accum;
    if a < b {
      AccumZeros(b - a, ZeroDigits(a) + ds);
      assert ZeroDigits(b - a) + (ZeroDigits(a) + ds) == ZeroDigits(b) + ds;
    }
  }

  lemma PositiveFraction(ds: seq<nat>, n: int)
    ensures var rest := if n > 0 then Rest(ds, n) else ds;
            var zeros := LeadingZeros(if n > 0 then 0 else n, |rest|);
            Accum(FractionDigits(ds, n)) == Accum(ZeroDigits(zeros) + rest)
  {
    hide Accum;
    if n > 0 {
      var rest := Rest(ds, n);
      if |rest| == 0 {
        AccumNone(rest);
        AccumZeros(LeadingZeros(0, 0), rest);
      } else {
        assert ZeroDigits(0) + rest == rest;
      }
    }
  }

  lemma CombineParts(integer: nat, accum: nat)
    ensures var r := Combine(integer, accum);
            r.fvalue == (accum + 1) / 2 % TWO32
            && r.ivalue == (if accum + 1 >= TWO33 then Increment64(Saturated(integer)) else Saturated(integer))
            && r.range == (integer >= TWO64 || (accum + 1 >= TWO33 && r.ivalue == 0))
  {
  }

  lemma ScaleSteps(r: Fixed, b: nat, mi: nat, mf: nat)
    requires 1 <= b <= 31 && mf == Add32(r.fvalue, Pow2(31 - b))
    requires mi == if mf < r.fvalue then Increment64(r.ivalue) else r.ivalue
    ensures Scale(r, b) == if r.range || mi < r.ivalue || mi >= Pow2(32 - b) then Reading(TWO32 - 1, true)
                           else Reading(Assemble(mi, mf, Pow2(32 - b), Pow2(b)), false)
  {
    hide Pow2, Assemble, Add32, Increment64;
    Pow2Half(b);
  }

  lemma Pow2Half(b: nat)
    requires 1 <= b <= 31
    ensures Pow2(32 - b) / 2 == Pow2(31 - b)
  {
    assert Pow2(32 - b) == 2 * Pow2(31 - b);
  }

  lemma Scale32(r: Fixed)
    ensures Scale(r, 32) == if r.range || r.ivalue != 0 then Reading(TWO32 - 1, true)
                            else Reading(r.fvalue, false)
  {
  }

  // What FixedPointArg reads from a whole text, or nothing.
  datatype Result = Failure | Success(reading: Reading)

  function ReadText(str: string, isSigned: bool, delta: int, b: nat): Result
    requires 1 <= b <= 32
  {
    match ParsedFraction(str, isSigned, delta)
    case NoNumber => Failure
    case Number(end, fixed) => if end != |str| then Failure else Success(Scale(fixed, b))
  }

  class FixedPointArg {
    const fractionBits: nat
    const exponentDelta: int
    var status: Status

    constructor (b: nat, exponent: int)
      ensures fractionBits == b && exponentDelta == exponent
    {
      fractionBits, exponentDelta, status := b, exponent, Ok;
    }

    method Underparse(str: string, isSigned: bool) returns (ok: bool, result: nat)
      requires 1 <= fractionBits <= 32
      modifies this`status
      ensures ok == ReadText(str, isSigned, exponentDelta, fractionBits).Success?
      ensures ok ==>
        ReadText(str, isSigned, exponentDelta, fractionBits) == Success(Reading(result, status.Range?))
      ensures status.Inval? <==> !ok
    {
      hide ParsedFraction, Pow2, Scale, Assemble;
      result := 0;
      var end, ivalue, fvalue, st := ParseFraction(str, isSigned, exponentDelta);
      status := st;
      if end != |str| {
        status := Inval;
      }
      if status.Inval? {
        return false, result;
      }
      ghost var fixed := Fixed(ivalue, fvalue, status.Range?);
      if fractionBits == 32 {
        if ivalue == 0 {
          result := fvalue;
        } else {
          status := Range;
        }
        Scale32(fixed);
      } else {
        var mivalue, mfvalue := ivalue, Add32(fvalue, Pow2(31 - fractionBits));
        if mfvalue < fvalue {
          mivalue := Increment64(mivalue);
        }
        ScaleSteps(fixed, fractionBits, mivalue, mfvalue);
        if mivalue >= ivalue && mivalue < Pow2(32 - fractionBits) {
          result := Assemble(mivalue, mfvalue, Pow2(32 - fractionBits), Pow2(fractionBits));
        } else {
          status := Range;
        }
      }
      if status.Range? {
        result := TWO32 - 1;
      }
      ok := true;
    }
  }
}
