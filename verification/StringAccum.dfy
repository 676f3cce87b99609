/**
 Printing integers: `StringAccum::append_numeric` of `lib/straccum.cc`. Shifts and masks of
 unsigned integers are written as division and remainder.
 */
module StringAccum {
  import opened Widths
  import opened IntegerText

  // Digits that are written from the last one on, in front of what is written; none for zero.
  function Written(n: nat, b: nat, upper: bool): string
    requires 2 <= b <= 36
  {
    if n == 0 then [] else Numeral(n, b, upper)
  }

  lemma WrittenStep(n: nat, b: nat, upper: bool, q: nat, d: nat, t: string)
    requires 2 <= b <= 36 && n > 0 && n == b * q + d && d < b
    ensures Written(n, b, upper) + t == Written(q, b, upper) + ([DigitText(d, upper)] + t)
  {
    DivIs(n, b, q, d);
    assert n >= b ==> Numeral(n, b, upper) == Numeral(q, b, upper) + [DigitText(d, upper)];
    if q == 0 {
      assert Written(n, b, upper) == [DigitText(d, upper)];
    }
    assert Written(q, b, upper) + ([DigitText(d, upper)] + t) == Written(q, b, upper) + [DigitText(d, upper)] + t;
  }

  lemma DivIs(n: nat, b: nat, q: nat, d: nat)
    requires b >= 2 && n == b * q + d && d < b
    ensures Div(n, b) == q && (q == 0 <==> n < b)
  {
    var p := Div(n, b);
    if p < q {
      Product(b, p + 1, q);
    } else if q < p {
      Product(b, q + 1, p);
    }
    if q > 0 {
      Product(b, 1, q);
    }
  }

  lemma Product(b: nat, x: nat, y: nat)
    requires x <= y
    ensures b * x <= b * y
  {
  }

  // The sums of shifted numbers that stand for a tenth never exceed it.
  lemma BelowTenth(n: nat)
    ensures 10 * (n / 16 + n / 32 + n / 256 + n / 512 + n / 4096 + n / 8192 + n / 65536 + n / 131072) <= n
    ensures 10 * (n / 16 + n / 32 + n / 256 + n / 512) <= n
  {
  }

  // num / 10 without dividing: a sum of shifts comes close from below, and the rest of it is
  // divided again until less than ten is left.
  method DivideByTen(num: nat) returns (k: nat, m: nat)
    requires num < TWO64
    ensures num == 10 * k + m && m < 10
  {
    BelowTenth(num);
    k := num / 16 + num / 32 + num / 256 + num / 512 + num / 4096 + num / 8192 + num / 65536 + num / 131072;
    while true
      invariant 10 * k <= num
      decreases num - 10 * k
    {
      var d := k * 8 + k * 2;
      m := num - d;
      if m < 10 {
        break;
      }
      BelowTenth(m);
      var delta := m / 16 + m / 32 + m / 256 + m / 512;
      if m >= 0x1000 {
        delta := delta + (m / 4096 + m / 8192 + m / 65536 + m / 131072);
      }
      k := k + (if delta > 0 then delta else 1);
    }
  }

  method AppendNumeric(num: nat, base: nat, uppercase: bool) returns (t: string)
    requires num < TWO64 && (base == 8 || base == 10 || base == 16)
    ensures t == Numeral(num, base, uppercase)
  {
    hide Numeral, DigitText, Written;
    var n: nat := num;
    t := [];
    assert Written(num, base, uppercase) + [] == Written(num, base, uppercase);
    if base != 10 {
      while n > 0
        invariant Written(n, base, uppercase) + t == Written(num, base, uppercase)
      {
        var digit, rest := n % base, n / (if base == 16 then 16 else 8);
        WrittenStep(n, base, uppercase, rest, digit, t);
        t := [DigitText(digit, uppercase)] + t;
        n := rest;
      }
    }
    while n > 0
      invariant n < TWO64 && (base != 10 ==> n == 0)
      invariant Written(n, base, uppercase) + t == Written(num, base, uppercase)
    {
      var k, m := DivideByTen(n);
      WrittenStep(n, 10, uppercase, k, m, t);
      t := [DigitText(m, uppercase)] + t;
      n := k;
    }
    WrittenAll(num, base, uppercase, t);
    if |t| == 0 {
      t := ['0'];
    }
  }

  lemma WrittenAll(n: nat, b: nat, upper: bool, t: string)
    requires 2 <= b <= 36 && Written(0, b, upper) + t == Written(n, b, upper)
    ensures (if |t| == 0 then ['0'] else t) == Numeral(n, b, upper)
  {
    assert Written(0, b, upper) + t == t;
  }

  // A minus sign and the numeral of the negated number.
  method AppendSigned(num: int, base: nat, uppercase: bool) returns (t: string)
    requires -TWO63 <= num < TWO63 && (base == 8 || base == 10 || base == 16)
    ensures num < 0 ==> t == ['-'] + Numeral(-num, base, uppercase)
    ensures num >= 0 ==> t == Numeral(num, base, uppercase)
  {
    if num < 0 {
      var rest := AppendNumeric(-num, base, uppercase);
      t := ['-'] + rest;
    } else {
      t := AppendNumeric(num, base, uppercase);
    }
  }

  // What is printed is read back, up to the integers that the reader can represent.
  lemma PrintedIsRead(num: int, base: nat, uppercase: bool, rest: string)
    requires -TWO63 <= num < TWO63 && (base == 8 || base == 10 || base == 16) && Ends(rest, base)
    requires num == 0 ==> NoPrefix(rest, base)
    ensures var t := if num < 0 then ['-'] + Numeral(-num, base, uppercase) else Numeral(num, base, uppercase);
            var r := ParseInteger(t + rest, true, base);
            r.end == |t| && (r.status.Ok? <==> -TWO31 <= num < TWO31) && (r.status.Ok? ==> r.value == num)
  {
    hide Numeral, ParseInteger;
    var n, sign := if num < 0 then -num else num, if num < 0 then ['-'] else [];
    ReadPrinted(n, base, base, uppercase, true, sign, [], rest);
    assert sign + [] + Numeral(n, base, uppercase) == sign + Numeral(n, base, uppercase);
    assert [] + Numeral(n, base, uppercase) == Numeral(n, base, uppercase);
  }
}
