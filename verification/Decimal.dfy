/**
 Decimal digits, the numbers they stand for, and integer division.
 */
module Decimal {

  predicate IsDigit(c: char) {
    '0' <= c <= '9'
  }

  function DigitValue(c: char): (d: nat)
    requires IsDigit(c)
    ensures d < 10
  {
    c as int - '0' as int
  }

  function DigitChar(d: nat): (c: char)
    requires d < 10
    ensures IsDigit(c) && DigitValue(c) == d
  {
    '0' + d as char
  }

  ghost predicate AreDigits(ds: seq<nat>) {
    forall i :: 0 <= i < |ds| ==> ds[i] < 10
  }

  function Pow10(n: nat): (p: nat)
    ensures p >= 1
  {
    if n == 0 then 1 else 10 * Pow10(n - 1)
  }

  function Pow2(n: nat): (p: nat)
    ensures p >= 1
  {
    if n == 0 then 1 else 2 * Pow2(n - 1)
  }

  // The number that digits stand for, most significant first.
  function Nat(ds: seq<nat>): nat
    decreases |ds|
  {
    if |ds| == 0 then 0 else 10 * Nat(ds[..|ds| - 1]) + ds[|ds| - 1]
  }

  lemma NatPush(ds: seq<nat>, d: nat)
    ensures Nat(ds + [d]) == 10 * Nat(ds) + d
  {
    assert (ds + [d])[..|ds|] == ds;
  }

  lemma {:induction false} Pow10Add(m: nat, n: nat)
    ensures Pow10(m + n) == Pow10(m) * Pow10(n)
  {
    if m > 0 {
      Pow10Add(m - 1, n);
      MulAssoc(10, Pow10(m - 1), Pow10(n));
    }
  }

  lemma {:induction false} Pow2Add(m: nat, n: nat)
    ensures Pow2(m + n) == Pow2(m) * Pow2(n)
  {
    if m > 0 {
      Pow2Add(m - 1, n);
      MulAssoc(2, Pow2(m - 1), Pow2(n));
    }
  }

  lemma MulTen(a: nat, p: nat)
    ensures 10 * (a * p) == a * (10 * p)
  {
  }

  lemma {:induction false} NatAppend(a: seq<nat>, b: seq<nat>)
    ensures Nat(a + b) == Nat(a) * Pow10(|b|) + Nat(b)
    decreases |b|
  {
    if |b| == 0 {
      assert a + b == a;
    } else {
      var b', d := b[..|b| - 1], b[|b| - 1];
      NatAppend(a, b');
      assert a + b == (a + b') + [d] && b == b' + [d];
      NatPush(a + b', d);
      assert Pow10(|b|) == 10 * Pow10(|b'|);
      MulTen(Nat(a), Pow10(|b'|));
    }
  }

  lemma {:induction false} NatBound(ds: seq<nat>)
    requires AreDigits(ds)
    ensures Nat(ds) < Pow10(|ds|)
    decreases |ds|
  {
    if |ds| > 0 {
      NatBound(ds[..|ds| - 1]);
    }
  }

  function ZeroDigits(n: nat): (z: seq<nat>)
    ensures |z| == n && AreDigits(z)
  {
    seq(n, _ => 0)
  }

  lemma {:induction false} NatZeros(n: nat)
    ensures Nat(ZeroDigits(n)) == 0
  {
    if n > 0 {
      NatZeros(n - 1);
      assert ZeroDigits(n)[..n - 1] == ZeroDigits(n - 1);
    }
  }

  // ----- Printing ---------------------------------------------------------------------

  // The digits of a number as StringAccum and sprintf print it.
  function DigitsOf(n: nat): (ds: seq<nat>)
    ensures |ds| > 0 && AreDigits(ds)
  {
    if n < 10 then [n] else DigitsOf(n / 10) + [n % 10]
  }

  lemma {:induction false} NatDigitsOf(n: nat)
    ensures Nat(DigitsOf(n)) == n
  {
    if n >= 10 {
      NatDigitsOf(n / 10);
      NatPush(DigitsOf(n / 10), n % 10);
    } else {
      NatPush([], n);
      assert [] + [n] == [n];
    }
  }

  function Show(ds: seq<nat>): (s: string)
    requires AreDigits(ds)
    ensures |s| == |ds| && forall i :: 0 <= i < |s| ==> s[i] == DigitChar(ds[i])
  {
    seq(|ds|, i requires 0 <= i < |ds| => DigitChar(ds[i]))
  }

  // ----- Division -----------------------------------------------------------------------

  lemma DivUnique(x: nat, d: nat, q: nat)
    requires d > 0 && d * q <= x < d * q + d
    ensures x / d == q
  {
    var r := x / d;
    if r < q {
      assert d * (r + 1) <= d * q by { MulLe(r + 1, q, d); }
    } else if r > q {
      assert d * (q + 1) <= d * r by { MulLe(q + 1, r, d); }
    }
  }

  lemma MulLe(a: nat, b: nat, d: nat)
    requires a <= b
    ensures d * a <= d * b
  {
  }

  lemma DivBounds(x: nat, d: nat)
    requires d > 0
    ensures d * (x / d) <= x < d * (x / d) + d
  {
  }

  lemma MulAssoc(a: nat, b: nat, c: nat)
    ensures a * (b * c) == a * b * c
  {
  }

  lemma MulSwap(a: nat, b: nat)
    ensures a * b == b * a
  {
  }

  lemma MulAdd(a: nat, b: nat, c: nat)
    ensures a * (b + c) == a * b + a * c
  {
  }

  // Dividing twice is dividing by the product.
  lemma DivDiv(x: nat, a: nat, b: nat)
    requires a > 0 && b > 0
    ensures a * b > 0 && x / a / b == x / (a * b)
  {
    var q := x / a;
    var p := q / b;
    DivBounds(x, a);
    DivBounds(q, b);
    ProductBounds(x, a, b, q, p);
    DivUnique(x, a * b, p);
  }

  lemma ProductBounds(x: nat, a: nat, b: nat, q: nat, p: nat)
    requires a > 0 && b > 0
    requires a * q <= x < a * q + a && b * p <= q < b * p + b
    ensures a * b > 0 && a * b * p <= x < a * b * p + a * b
  {
    MulLe(b * p, q, a);
    MulLe(q + 1, b * p + b, a);
    MulAdd(a, q, 1);
    MulAdd(a, b * p, b);
    MulAssoc(a, b, p);
  }

  lemma DivAddMultiple(x: nat, k: nat, d: nat)
    requires d > 0
    ensures (x + k * d) / d == x / d + k
  {
    DivBounds(x, d);
    MulAdd(d, x / d, k);
    MulSwap(k, d);
    DivUnique(x + k * d, d, x / d + k);
  }
}
