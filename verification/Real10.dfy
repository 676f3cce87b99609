/**
 `cp_unparse_real10` of `lib/confparse.cc` and `DecimalFixedPointArg` of `lib/args.cc`:
 decimal fixed-point numbers with up to nine digits of fraction.
 */
module Real10 {
  import opened Widths
  import opened NumberArg
  import opened Decimal
  import opened NumberText
  import opened DecimalText
  import FixedPoint

  type Reading = FixedPoint.Reading

  // ----- parse_decimal_fraction -----------------------------------------------------------

  datatype Parts = Parts(ivalue: nat, fvalue: nat, range: bool)

  // The digits behind the point, after the zeros that a negative count puts before them.
  function Behind(ds: seq<nat>, n: int): (x: seq<nat>)
    ensures AreDigits(ds) ==> AreDigits(x)
  {
    if n >= 0 then Rest(ds, n) else ZeroDigits(-n) + ds
  }

  // Whether the first digit left over rounds up. When the zeros alone fill the fraction, it is
  // the first digit of the number and not the zero in its place.
  predicate RoundsUp(ds: seq<nat>, n: int, d: nat) {
    var k := if n < 0 then (if d + n > 0 then d + n else 0) else n + d;
    k < |ds| && ds[k] >= 5
  }

  function ToParts(ds: seq<nat>, n: int, d: nat): Parts {
    var integer := Nat(Padded(ds, if n > 0 then n else 0));
    var f := Nat(Padded(Behind(ds, n), d)) + (if RoundsUp(ds, n, d) then 1 else 0);
    if RoundsUp(ds, n, d) && f == Pow10(d) then
      Parts(FixedPoint.Increment64(Saturated(integer)), 0,
            integer >= TWO64 || Saturated(integer) + 1 == TWO64)
    else Parts(Saturated(integer), f, integer >= TWO64)
  }

  function ReadDecimal(ds: seq<nat>, n: int, d: nat): Reading {
    hide Pow10, ToParts;
    var r := ToParts(ds, n, d);
    ProductLarge(r.ivalue, Pow10(d));
    if r.range then FixedPoint.Reading(TWO32 - 1, true)
    else FixedPoint.Capped(r.ivalue * Pow10(d) + r.fvalue)
  }

  // ----- What it computes -----------------------------------------------------------------

  // floor(10^d V + 1/2) for V = p/q.
  function DecimalValue(p: nat, q: nat, d: nat): nat
    requires q >= 1
  {
    (2 * (p * Pow10(d)) + q) / (2 * q)
  }

  // The nearest multiple of 10^-d, halves up.
  lemma DecimalValueIsNearest(p: nat, q: nat, d: nat)
    requires q >= 1
    ensures var e := 2 * (p * Pow10(d)) - 2 * (q * DecimalValue(p, q, d)); 0 <= e + q && e < q
  {
    hide Pow10;
    FixedPoint.NearestQuotient(2 * (p * Pow10(d)), q, DecimalValue(p, q, d));
  }

  // The integer part and the fraction, before the carry, are one number.
  lemma PartsSum(ds: seq<nat>, n: int, d: nat)
    ensures var integer := Nat(Padded(ds, if n > 0 then n else 0));
            var v := integer * Pow10(d) + Nat(Padded(Behind(ds, n), d))
                     + (if RoundsUp(ds, n, d) then 1 else 0);
            ReadDecimal(ds, n, d) == FixedPoint.Capped(v)
  {
    hide Nat, RoundsUp, Behind;
    var i := Nat(Padded(ds, if n > 0 then n else 0));
    var f := Nat(Padded(Behind(ds, n), d)) + (if RoundsUp(ds, n, d) then 1 else 0);
    var p := Pow10(d);
    if i >= TWO64 {
      MulLe(1, p, i);
    } else if RoundsUp(ds, n, d) && f == p {
      MulAdd(p, i, 1);
      MulSwap(p, i);
      MulSwap(p, i + 1);
      if i + 1 == TWO64 {
        MulLe(1, p, TWO64);
        MulSwap(p, TWO64);
      }
    }
  }

  // x has more digits than the fraction: cutting it at d digits and rounding by the next one
  // is rounding to the nearest, halves up.
  lemma RoundedCut(x: seq<nat>, d: nat)
    requires AreDigits(x) && d < |x|
    ensures (2 * (Nat(x) * Pow10(d)) + Pow10(|x|)) / (2 * Pow10(|x|))
         == Nat(x[..d]) + (if x[d] >= 5 then 1 else 0)
  {
    hide Nat, Pow10;
    var head, tail := x[..d], x[d..];
    assert x == head + tail;
    NatAppend(head, tail);
    Pow10Add(d, |tail|);
    TailHalf(tail);
    CutDivision(Nat(x), Pow10(|x|), Nat(head), Nat(tail), Pow10(d), Pow10(|tail|), x[d] >= 5);
  }

  lemma CutDivision(x: nat, n: nat, h: nat, t: nat, p: nat, q: nat, up: bool)
    requires p >= 1 && q >= 1 && x == h * q + t && n == p * q
    requires if up then q <= 2 * t < 2 * q else 2 * t < q
    ensures n >= 1 && (2 * (x * p) + n) / (2 * n) == h + (if up then 1 else 0)
  {
    FixedPoint.PositiveProduct(p, q);
    CutSum(x, n, h, t, p, q);
    CutBounds(t, p, q);
    CutQuotient(2 * (x * p) + n, p * (2 * t) + n, h, n, up);
  }

  lemma CutSum(x: nat, n: nat, h: nat, t: nat, p: nat, q: nat)
    requires x == h * q + t && n == p * q
    ensures 2 * (x * p) + n == p * (2 * t) + n + h * (2 * n)
  {
    assert x * p == h * (p * q) + t * p;
  }

  lemma CutQuotient(a: nat, b: nat, h: nat, n: nat, up: bool)
    requires n >= 1 && a == b + h * (2 * n) && if up then 2 * n <= b < 4 * n else b < 2 * n
    ensures a / (2 * n) == h + (if up then 1 else 0)
  {
    DivAddMultiple(b, h, 2 * n);
    DivUnique(b, 2 * n, if up then 1 else 0);
  }

  lemma CutBounds(t: nat, p: nat, q: nat)
    requires p >= 1
    ensures 2 * t < q ==> p * (2 * t) < p * q
    ensures q <= 2 * t ==> p * q <= p * (2 * t)
    ensures 2 * t < 2 * q ==> p * (2 * t) < 2 * (p * q)
  {
    if 2 * t < q {
      MulLe(2 * t + 1, q, p);
    }
    if q <= 2 * t {
      MulLe(q, 2 * t, p);
    }
    if 2 * t < 2 * q {
      MulLe(2 * t + 1, 2 * q, p);
    }
  }

  // Twice the digits left over reach a whole exactly when the first of them is 5 or more.
  lemma TailHalf(tail: seq<nat>)
    requires AreDigits(tail) && |tail| > 0
    ensures var q := Pow10(|tail|);
            if tail[0] >= 5 then q <= 2 * Nat(tail) < 2 * q else 2 * Nat(tail) < q
  {
    hide Nat, Pow10;
    FixedPoint.NatFirst(tail);
    NatBound(tail[1..]);
    var q := Pow10(|tail| - 1);
    if tail[0] >= 5 {
      MulLe(5, tail[0], q);
      MulLe(tail[0], 9, q);
    } else {
      MulLe(tail[0], 4, q);
    }
    MulSwap(q, tail[0]);
  }

  // x fits in the fraction: it is exact.
  lemma ExactFit(x: seq<nat>, d: nat)
    requires |x| <= d
    ensures (2 * (Nat(x) * Pow10(d)) + Pow10(|x|)) / (2 * Pow10(|x|)) == Nat(Padded(x, d))
  {
    hide *;
    Pow10Add(|x|, d - |x|);
    PaddedValue(x, d);
    ExactDivision(Nat(x), Pow10(|x|), Pow10(d - |x|));
  }

  lemma ExactDivision(n: nat, q: nat, r: nat)
    requires q >= 1
    ensures (2 * (n * (q * r)) + q) / (2 * q) == n * r
  {
    var v := n * r;
    assert 2 * (n * (q * r)) == v * (2 * q);
    DivAddMultiple(q, v, 2 * q);
    DivUnique(q, 2 * q, 0);
  }

  lemma PaddedValue(x: seq<nat>, d: nat)
    requires |x| <= d
    ensures Nat(Padded(x, d)) == Nat(x) * Pow10(d - |x|)
  {
    NatAppend(x, ZeroDigits(d - |x|));
    NatZeros(d - |x|);
    if |x| == d {
      assert x[..d] == x;
    } else {
      assert Padded(x, d) == x + ZeroDigits(d - |x|);
    }
  }

  // The number as an integer part and the digits behind the point.
  lemma NumberBehind(ds: seq<nat>, n: int)
    requires AreDigits(ds)
    ensures var integer, x := Nat(Padded(ds, if n > 0 then n else 0)), Behind(ds, n);
            FixedPoint.Denominator(ds, n) == Pow10(|x|)
            && FixedPoint.Numerator(ds, n) == integer * Pow10(|x|) + Nat(x)
  {
    if n >= 0 {
      FixedPoint.NumberSplit(ds, n);
    } else {
      FixedPoint.NatLeadingZeros(-n, ds);
      FixedPoint.NatOfNone(Padded(ds, 0));
    }
  }

  lemma DecimalValueSplit(i: nat, f: nat, q: nat, d: nat)
    requires q >= 1
    ensures DecimalValue(i * q + f, q, d)
         == i * Pow10(d) + (2 * (f * Pow10(d)) + q) / (2 * q)
  {
    hide Pow10;
    var p := Pow10(d);
    DivAddMultiple(2 * (f * p) + q, i * p, 2 * q);
    assert (i * q + f) * p == i * p * q + f * p;
    assert i * p * (2 * q) == 2 * (i * p * q);
  }

  // DecimalFixedPointArg rounds to the nearest multiple of 10^-d, halves up, and saturates
  // exactly when that does not fit, as long as the zeros before the digits do not fill the
  // whole fraction.
  lemma ReadDecimalExact(ds: seq<nat>, n: int, d: nat)
    requires AreDigits(ds) && n + d >= 0
    ensures ReadDecimal(ds, n, d)
         == FixedPoint.Capped(DecimalValue(FixedPoint.Numerator(ds, n), FixedPoint.Denominator(ds, n), d))
  {
    hide ReadDecimal, DecimalValue, FixedPoint.Numerator, FixedPoint.Denominator, Nat, Pow10;
    var x := Behind(ds, n);
    PartsSum(ds, n, d);
    NumberBehind(ds, n);
    DecimalValueSplit(Nat(Padded(ds, if n > 0 then n else 0)), Nat(x), Pow10(|x|), d);
    if |x| <= d {
      ExactFit(x, d);
    } else {
      RoundedCut(x, d);
      assert x[d] == ds[n + d];
      assert Padded(x, d) == x[..d];
    }
  }

  // When they do, the number is below a tenth of a unit, but a first digit of 5 or more still
  // rounds it up.
  lemma ReadDecimalTiny(ds: seq<nat>, n: int, d: nat)
    requires AreDigits(ds) && n + d < 0
    ensures DecimalValue(FixedPoint.Numerator(ds, n), FixedPoint.Denominator(ds, n), d) == 0
    ensures ReadDecimal(ds, n, d)
         == FixedPoint.Reading(if |ds| > 0 && ds[0] >= 5 then 1 else 0, false)
  {
    hide ReadDecimal, DecimalValue, FixedPoint.Numerator, FixedPoint.Denominator, Nat, Pow10;
    var x := Behind(ds, n);
    PartsSum(ds, n, d);
    NumberBehind(ds, n);
    DecimalValueSplit(0, Nat(x), Pow10(|x|), d);
    RoundedCut(x, d);
    assert x[..d] == ZeroDigits(d) && Padded(x, d) == ZeroDigits(d);
    NatZeros(d);
    FixedPoint.NatOfNone(Padded(ds, 0));
    assert 0 * Pow10(|x|) + Nat(x) == Nat(x) && 0 * Pow10(d) == 0;
  }

  lemma ReadDecimalIff(ds: seq<nat>, n: int, d: nat)
    requires AreDigits(ds)
    ensures var v := DecimalValue(FixedPoint.Numerator(ds, n), FixedPoint.Denominator(ds, n), d);
            ReadDecimal(ds, n, d) == FixedPoint.Capped(v) <==> (n + d >= 0 || |ds| == 0 || ds[0] < 5)
  {
    hide ReadDecimal, DecimalValue;
    if n + d >= 0 {
      ReadDecimalExact(ds, n, d);
    } else {
      ReadDecimalTiny(ds, n, d);
    }
  }

  // For one: 5e-2 with no fraction digits is read as 1.
  lemma TinyMisread(ds: seq<nat>)
    requires ds == [5]
    ensures ReadDecimal(ds, -1, 0) == FixedPoint.Reading(1, false)
    ensures DecimalValue(FixedPoint.Numerator(ds, -1), FixedPoint.Denominator(ds, -1), 0) == 0
  {
    hide ReadDecimal, DecimalValue;
    ReadDecimalTiny(ds, -1, 0);
  }

  // ----- DecimalFixedPointArg on a text ---------------------------------------------------

  datatype Result = Failure | Success(reading: Reading)

  function ReadText(str: string, isSigned: bool, delta: int, d: nat): Result {
    var p := Preparse(str, isSigned, delta);
    if p.end == 0 || p.end != |str| then Failure
    else Success(ReadDecimal(Digits(str), p.integerDigits, d))
  }

  // The text that is misread: 5e-2, which is 0.05 and rounds to 0 with no fraction digits.
  lemma TinyText(str: string)
    requires str == ['5', 'e', '-', '2']
    ensures ReadText(str, false, 0, 0) == Success(FixedPoint.Reading(1, false))
    ensures DecimalValue(5, 100, 0) == 0
  {
    hide ReadDecimal;
    assert ScanMantissa(str, 0, 0, -1, false, 0) == ScanMantissa(str, 1, 0, 1, false, 1) == Mantissa(1, 1, 1);
    assert WithExponent(str, 1, 1) == Preparsed(4, -1);
    assert Digits(str[1..]) == [] && Digits(str) == [5];
    TinyMisread([5]);
  }

  // ----- cp_unparse_real10 ----------------------------------------------------------------

  // sprintf("%0*d"): n in at least d digits.
  function ZeroPadded(n: nat, d: nat): (ds: seq<nat>)
    ensures AreDigits(ds)
  {
    var ds := DigitsOf(n);
    if |ds| < d then ZeroDigits(d - |ds|) + ds else ds
  }

  function Stripped(ds: seq<nat>): (r: seq<nat>)
    ensures AreDigits(ds) ==> AreDigits(r)
    ensures |r| <= |ds| && r == ds[..|r|] && forall k :: |r| <= k < |ds| ==> ds[k] == 0
    decreases |ds|
  {
    if |ds| > 0 && ds[|ds| - 1] == 0 then Stripped(ds[..|ds| - 1]) else ds
  }

  function Quotient(x: nat, one: nat): (q: nat)
    requires one > 0
    ensures one * q <= x < one * q + one
  {
    DivBounds(x, one);
    x / one
  }

  function Remainder(x: nat, one: nat): (r: nat)
    requires one > 0
    ensures r < one
  {
    x - one * Quotient(x, one)
  }

  function Real10Text(x: nat, d: nat): string {
    hide *;
    var one := Pow10(d);
    var a, f := DigitsOf(Quotient(x, one)), Remainder(x, one);
    if f == 0 then Show(a) else DecimalString(a, Stripped(ZeroPadded(f, d)))
  }

  lemma {:induction false} DigitsOfLength(n: nat, d: nat)
    requires n < Pow10(d) && d >= 1
    ensures |DigitsOf(n)| <= d
    decreases d
  {
    if n >= 10 {
      assert d > 1 by {
        assert Pow10(1) == 10;
      }
      DigitsOfLength(n / 10, d - 1);
    }
  }

  lemma ZeroPaddedValue(n: nat, d: nat)
    requires n < Pow10(d) && d >= 1
    ensures |ZeroPadded(n, d)| == d && Nat(ZeroPadded(n, d)) == n
  {
    hide Nat, Pow10, DigitsOf;
    DigitsOfLength(n, d);
    NatDigitsOf(n);
    var ds := DigitsOf(n);
    FixedPoint.NatLeadingZeros(d - |ds|, ds);
  }

  // The digits of an integer part a, and up to d digits c behind the point.
  lemma ReadPrinted(a: seq<nat>, c: seq<nat>, d: nat)
    requires AreDigits(a) && AreDigits(c) && |a| > 0 && |c| <= d
    ensures ReadText(DecimalString(a, c), false, 0, d)
         == Success(FixedPoint.Capped(Nat(a) * Pow10(d) + Nat(Padded(c, d))))
  {
    hide Preparse, Digits, DecimalString, ReadDecimal, Nat;
    ReadDecimalString(a, c, false, 0);
    var ds := a + c;
    PartsSum(ds, |a|, d);
    assert Padded(ds, |a|) == a && Behind(ds, |a|) == c;
  }

  // Every 32-bit number is read back with no range error, for every count of digits.
  lemma Real10RoundTrip(x: nat, d: nat)
    requires x < TWO32 && d <= 9
    ensures ReadText(Real10Text(x, d), false, 0, d) == Success(FixedPoint.Reading(x, false))
  {
    hide ReadText, DecimalString, Nat, Pow10, ZeroPadded, Stripped, Quotient;
    var one := Pow10(d);
    var i, f := Quotient(x, one), Remainder(x, one);
    NatDigitsOf(i);
    MulSwap(i, one);
    if f == 0 {
      ReadPrinted(DigitsOf(i), [], d);
      PaddedValue([], d);
      FixedPoint.NatOfNone([]);
      assert DecimalString(DigitsOf(i), []) == Show(DigitsOf(i)) by { ShowInteger(DigitsOf(i)); }
    } else {
      NonzeroFraction(f, d);
      ZeroPaddedValue(f, d);
      var c := ZeroPadded(f, d);
      StrippedPadded(c);
      ReadPrinted(DigitsOf(i), Stripped(c), d);
    }
  }

  // A number is printed without a point when it is an integer, and otherwise with the digits of
  // its fraction up to the last one that is not zero.
  lemma Real10Shape(x: nat, d: nat)
    ensures var one := Pow10(d); var text := Real10Text(x, d);
            && (x % one == 0 ==> text == Show(DigitsOf(x / one)))
            && (x % one > 0 ==> exists c ::
                  AreDigits(c) && 0 < |c| <= d && c[|c| - 1] != 0 && Nat(c + ZeroDigits(d - |c|)) == x % one
                  && text == Show(DigitsOf(x / one)) + ['.'] + Show(c))
  {
    hide DecimalString, Nat, Pow10, ZeroPadded, DigitsOf, Show;
    var one := Pow10(d);
    var f := Remainder(x, one);
    QuotientIs(x, one);
    if f == 0 {
    } else {
      NonzeroFraction(f, d);
      ZeroPaddedValue(f, d);
      StrippedShape(ZeroPadded(f, d));
      var c := Stripped(ZeroPadded(f, d));
      assert DecimalString(DigitsOf(x / one), c) == Show(DigitsOf(x / one)) + ['.'] + Show(c) by {
        WithFraction(DigitsOf(x / one), c);
      }
    }
  }

  lemma QuotientIs(x: nat, one: nat)
    requires one > 0
    ensures Quotient(x, one) == x / one && Remainder(x, one) == x % one
  {
  }

  lemma WithFraction(a: seq<nat>, c: seq<nat>)
    requires AreDigits(a) && AreDigits(c) && |c| > 0
    ensures DecimalString(a, c) == Show(a) + ['.'] + Show(c)
  {
  }

  lemma {:induction false} StrippedShape(ds: seq<nat>)
    requires Nat(ds) > 0
    ensures var c := Stripped(ds); |c| > 0 && c[|c| - 1] != 0 && c + ZeroDigits(|ds| - |c|) == ds
    decreases |ds|
  {
    hide Nat;
    NatLast(ds);
    if ds[|ds| - 1] == 0 {
      var r := ds[..|ds| - 1];
      StrippedShape(r);
      LastZero(Stripped(r), |r| - |Stripped(r)|);
      assert r + [0] == ds;
    } else {
      assert ds + ZeroDigits(0) == ds;
    }
  }

  lemma NatLast(ds: seq<nat>)
    requires Nat(ds) > 0
    ensures |ds| > 0 && (ds[|ds| - 1] == 0 ==> Nat(ds[..|ds| - 1]) > 0)
  {
  }

  lemma LastZero(c: seq<nat>, n: nat)
    ensures c + ZeroDigits(n + 1) == c + ZeroDigits(n) + [0]
  {
    assert ZeroDigits(n + 1) == ZeroDigits(n) + [0];
  }

  lemma NonzeroFraction(f: nat, d: nat)
    requires 0 < f < Pow10(d)
    ensures d >= 1
  {
  }

  lemma ShowInteger(a: seq<nat>)
    requires AreDigits(a)
    ensures DecimalString(a, []) == Show(a)
  {
  }

  lemma StrippedPadded(c: seq<nat>)
    requires AreDigits(c)
    ensures AreDigits(Stripped(c)) && Padded(Stripped(c), |c|) == c
  {
    var r := Stripped(c);
    assert r == c[..|r|] && forall k :: |r| <= k < |c| ==> c[k] == 0;
    PaddedZeros(c, |r|);
  }

  lemma PaddedZeros(c: seq<nat>, n: nat)
    requires n <= |c| && forall k :: n <= k < |c| ==> c[k] == 0
    ensures Padded(c[..n], |c|) == c
  {
    if n < |c| {
      assert c[..n] + ZeroDigits(|c| - n) == c;
    } else {
      assert c[..n] == c == c[..|c|];
    }
  }

  // ----- The code -------------------------------------------------------------------------

  method ParseDecimalFraction(str: string, isSigned: bool, delta: int, d: nat)
    returns (end: nat, ivalue: nat, fvalue: nat, status: Status)
    ensures end == Preparse(str, isSigned, delta).end
    ensures status.Inval? <==> end == 0
    ensures var n := Preparse(str, isSigned, delta).integerDigits;
            end > 0 ==> Parts(ivalue, fvalue, status.Range?) == ToParts(Digits(str[..end]), n, d)
  {
    hide Preparse;
    ivalue, fvalue := 0, 0;
    var integerDigits: int;
    end, integerDigits := PreparseFraction(str, isSigned, delta);
    if end == 0 {
      return end, ivalue, fvalue, Inval;
    }
    var range;
    ivalue, fvalue, range := ReadParts(str[..end], integerDigits, d);
    status := if range then Range else Ok;
  }

  // The rest of parse_decimal_fraction, on the text of the number.
  method ReadParts(t: string, n: int, d: nat) returns (ivalue: nat, fvalue: nat, range: bool)
    ensures ToParts(Digits(t), n, d) == Parts(ivalue, fvalue, range)
  {
    hide Digits, Nat, Saturated, Rest, Padded, Behind, RoundsUp;
    ghost var ds := Digits(t);
    var integerDigits := n;
    var s: nat := 0;
    ivalue, range := 0, false;
    assert t[0..] == t;
    NothingPadded(ds);
    FixedPoint.SaturatedZero();
    if integerDigits > 0 {
      s, ivalue, range := ParseIntegerPortion(t, integerDigits);
      integerDigits := 0;
    }
    var maxfvalue: nat, k: nat;
    fvalue, maxfvalue, k := ReadFraction(t[s..], integerDigits, d);
    ghost var rest := Digits(t[s..]);
    BehindIs(ds, n);
    RoundsUpIs(ds, n, d);
    assert ZeroDigits(-integerDigits) + rest == Behind(ds, n);
    var up := NextRoundsUp(t[s..][k..]);
    assert up == RoundsUp(ds, n, d);
    if up {
      fvalue := fvalue + 1;
      if fvalue == maxfvalue {
        fvalue := 0;
        ivalue := if ivalue == TWO64 - 1 then 0 else ivalue + 1;
        if ivalue == 0 {
          range := true;
        }
      }
    }
  }

  // The digit that rounds is the first one left over.
  lemma RoundsUpIs(ds: seq<nat>, n: int, d: nat)
    ensures var x := if n > 0 then Rest(ds, n) else ds;
            var r := Rest(x, if n > 0 then d else if d + n > 0 then d + n else 0);
            RoundsUp(ds, n, d) <==> |r| > 0 && r[0] >= 5
  {
  }

  lemma BehindIs(ds: seq<nat>, n: int)
    ensures n > 0 ==> ZeroDigits(0) + Rest(ds, n) == Behind(ds, n)
    ensures n <= 0 ==> ZeroDigits(-n) + ds == Behind(ds, n)
  {
    assert ZeroDigits(0) + ds == ds == ds[0..];
    if n > 0 {
      assert ZeroDigits(0) + Rest(ds, n) == Rest(ds, n);
    }
  }

  // The digit of the fraction behind j others.
  lemma FractionDigit(ds: seq<nat>, n: int, j: nat)
    requires n <= 0
    ensures var x := ZeroDigits(-n) + ds;
            (j < |x| <==> n + j < |ds|)
            && (n + j < 0 ==> x[j] == 0) && (0 <= n + j < |ds| ==> x[j] == ds[n + j])
  {
  }

  method ReadFraction(t: string, n: int, d: nat) returns (fvalue: nat, maxfvalue: nat, s: nat)
    requires n <= 0
    ensures fvalue == Nat(Padded(ZeroDigits(-n) + Digits(t), d)) && maxfvalue == Pow10(d)
    ensures s <= |t| && Digits(t[s..]) == Rest(Digits(t), if d + n > 0 then d + n else 0)
  {
    hide Nat, Padded, Digits, Rest;
    ghost var ds := Digits(t);
    ghost var x := ZeroDigits(-n) + ds;
    var integerDigits, fractionDigits := n, d;
    ghost var j: nat := 0;
    fvalue, maxfvalue, s := 0, 1, 0;
    NothingPadded(x);
    NothingPadded(ds);
    assert t[0..] == t;
    while fractionDigits > 0
      invariant s <= |t| && 0 <= fractionDigits == d - j
      invariant integerDigits == if n + j < 0 then n + j else 0
      invariant fvalue == Nat(Padded(x, j)) && maxfvalue == Pow10(j)
      invariant Digits(t[s..]) == Rest(ds, if n + j > 0 then n + j else 0)
      decreases fractionDigits, |t| - s
    {
      FractionDigit(ds, n, j);
      NextDigit(t, s, ds, if n + j > 0 then n + j else 0);
      var digit;
      if integerDigits < 0 {
        digit := 0;
        integerDigits := integerDigits + 1;
      } else if s == |t| || IsExponentChar(t[s]) {
        digit := 0;
      } else if IsDigit(t[s]) {
        digit := DigitValue(t[s]);
        s := s + 1;
      } else {
        s := s + 1;
        continue;
      }
      NatPadded(x, j);
      fvalue := fvalue * 10 + digit;
      maxfvalue := maxfvalue * 10;
      fractionDigits := fractionDigits - 1;
      j := j + 1;
    }
  }

  // Whether the next digit of the text rounds up.
  method NextRoundsUp(t: string) returns (up: bool)
    ensures up <==> |Digits(t)| > 0 && Digits(t)[0] >= 5
  {
    var s: nat := 0;
    assert t[0..] == t;
    while s != |t| && t[s] != 'E' && t[s] != 'e' && (t[s] < '0' || t[s] > '9')
      invariant s <= |t| && Digits(t[s..]) == Digits(t)
      decreases |t| - s
    {
      assert t[s..][1..] == t[s + 1..];
      s := s + 1;
    }
    up := s != |t| && '5' <= t[s] <= '9';
  }

  class DecimalFixedPointArg {
    const fractionDigits: nat
    const exponentDelta: int
    var status: Status

    constructor (d: nat, exponent: int)
      ensures fractionDigits == d && exponentDelta == exponent
    {
      fractionDigits, exponentDelta, status := d, exponent, Ok;
    }

    method Underparse(str: string, isSigned: bool) returns (ok: bool, result: nat)
      requires fractionDigits <= 9
      modifies this`status
      ensures ok == ReadText(str, isSigned, exponentDelta, fractionDigits).Success?
      ensures var r := FixedPoint.Reading(result, status.Range?);
              ok ==> ReadText(str, isSigned, exponentDelta, fractionDigits) == Success(r)
      ensures status.Inval? <==> !ok
    {
      hide Preparse, Digits, ToParts, Pow10;
      result := 0;
      var end, ivalue, fvalue, st := ParseDecimalFraction(str, isSigned, exponentDelta, fractionDigits);
      status := st;
      if end != |str| {
        status := Inval;
      }
      if status.Inval? {
        return false, result;
      }
      assert str[..end] == str;
      var product := ivalue * Pow10(fractionDigits);
      ProductLarge(ivalue, Pow10(fractionDigits));
      if ivalue < TWO32 {
        if product < TWO32 && product + fvalue < TWO32 {
          result := product + fvalue;
        } else {
          status := Range;
        }
      } else {
        status := Range;
      }
      if status.Range? {
        result := TWO32 - 1;
      }
      ok := true;
    }
  }

  lemma ProductLarge(i: nat, p: nat)
    requires p >= 1
    ensures i <= i * p
  {
  }

  // Removing the trailing zeros of the fraction, which has a digit other than zero.
  method PopZeros(a: seq<nat>, c: seq<nat>) returns (sa: string)
    requires AreDigits(a) && AreDigits(c) && Nat(c) > 0
    ensures sa == Show(a) + ['.'] + Show(Stripped(c)) && |Stripped(c)| > 0
  {
    hide Nat, Stripped, Show, DigitChar;
    sa := Show(a) + ['.'] + Show(c);
    ghost var k: nat := |c|;
    FixedPoint.NatOfNone(c[..0]);
    assert c[..k] == c;
    while sa[|sa| - 1] == '0'
      invariant 0 < k <= |c| && sa == Show(a) + ['.'] + Show(c[..k])
      invariant Stripped(c[..k]) == Stripped(c) && Nat(c[..k]) > 0
      decreases k
    {
      assert sa[|sa| - 1] == Show(c[..k])[k - 1];
      PopZero(c[..k]);
      FixedPoint.NatOfNone(c[..k - 1]);
      assert c[..k][..k - 1] == c[..k - 1];
      assert sa[..|sa| - 1] == Show(a) + ['.'] + Show(c[..k])[..k - 1];
      sa := sa[..|sa| - 1];
      k := k - 1;
    }
    assert sa[|sa| - 1] == Show(c[..k])[k - 1];
    PopNothing(c[..k]);
  }

  lemma PopZero(c: seq<nat>)
    requires AreDigits(c) && |c| > 0 && Show(c)[|c| - 1] == '0'
    ensures var r := c[..|c| - 1];
            Stripped(r) == Stripped(c) && Nat(c) == 10 * Nat(r) && Show(c)[..|c| - 1] == Show(r)
  {
    assert DigitChar(c[|c| - 1]) == '0';
    assert c[|c| - 1] == DigitValue('0') == 0;
  }

  lemma PopNothing(c: seq<nat>)
    requires AreDigits(c) && |c| > 0 && Show(c)[|c| - 1] != '0'
    ensures Stripped(c) == c
  {
  }

  method CpUnparseReal10(x: nat, d: nat) returns (sa: string)
    requires d <= 9
    ensures sa == Real10Text(x, d)
  {
    hide Pow10, DigitsOf, Stripped, ZeroPadded, Show, Quotient;
    var one := Pow10(d);
    var intPart := Quotient(x, one);
    var fracPart := x - one * intPart;
    if fracPart == 0 {
      return Show(DigitsOf(intPart));
    }
    FractionNonzero(fracPart, d);
    sa := PopZeros(DigitsOf(intPart), ZeroPadded(fracPart, d));
  }

  lemma FractionNonzero(f: nat, d: nat)
    requires 0 < f < Pow10(d)
    ensures |ZeroPadded(f, d)| == d >= 1 && Nat(ZeroPadded(f, d)) > 0
  {
    NonzeroFraction(f, d);
    ZeroPaddedValue(f, d);
  }
}
