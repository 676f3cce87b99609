/**
 Decimal numbers as text: `preparse_fraction` and `parse_integer_portion` of `lib/args.cc`.
 */
module NumberText {
  import opened Widths
  import opened NumberArg
  import opened Decimal

  predicate IsExponentChar(c: char) {
    c == 'E' || c == 'e'
  }

  // ----- The shape of a number ----------------------------------------------------------

  // Where the loop of preparse_fraction stops, one past the last digit it saw, and the
  // number of digits before the decimal point.
  datatype Mantissa = Mantissa(end: nat, lastDigit: int, integerDigits: nat)

  function ScanMantissa(s: string, i: nat, first: nat, last: int, point: bool, digits: nat): (m: Mantissa)
    requires i <= |s| && last <= i
    ensures i <= m.end <= |s| && m.lastDigit <= m.end
    decreases |s| - i
  {
    if i == |s| then Mantissa(i, last, digits)
    else if s[i] == '_' && last == i then ScanMantissa(s, i + 1, first, last, point, digits)
    else if s[i] == '.' && !point && (last == i || first == i) then
      ScanMantissa(s, i + 1, first, last, true, digits)
    else if IsDigit(s[i]) then
      ScanMantissa(s, i + 1, first, i + 1, point, if point then digits else digits + 1)
    else Mantissa(i, last, digits)
  }

  // The digits from i on, as a number continuing n, and the position after them.
  datatype DigitRun = DigitRun(end: nat, value: nat)

  function ScanDigits(s: string, i: nat, n: nat): (r: DigitRun)
    requires i <= |s|
    ensures i <= r.end <= |s|
    decreases |s| - i
  {
    if i < |s| && IsDigit(s[i]) then ScanDigits(s, i + 1, 10 * n + DigitValue(s[i]))
    else DigitRun(i, n)
  }

  // A number: its length in the text (0 when there is none) and its count of digits before
  // the point, adjusted by its exponent.
  datatype Preparsed = Preparsed(end: nat, integerDigits: int)

  function WithExponent(s: string, i: nat, digits: int): (p: Preparsed)
    requires i <= |s|
    ensures i <= p.end <= |s|
  {
    if i + 1 < |s| && IsExponentChar(s[i]) then
      var j := i + (if s[i + 1] == '-' || s[i + 1] == '+' then 2 else 1);
      if j < |s| && IsDigit(s[j]) then
        var r := ScanDigits(s, j + 1, DigitValue(s[j]));
        Preparsed(r.end, if s[i + 1] == '-' then digits - r.value else digits + r.value)
      else Preparsed(i, digits)
    else Preparsed(i, digits)
  }

  function Preparse(s: string, isSigned: bool, delta: int): (p: Preparsed)
    ensures p.end <= |s|
  {
    var i := SignLength(s, isSigned);
    var m := ScanMantissa(s, i, i, i - 1, false, 0);
    if m.lastDigit == i - 1 then Preparsed(0, delta + m.integerDigits)
    else WithExponent(s, m.end, delta + m.integerDigits)
  }

  // ----- The digits of a number ---------------------------------------------------------

  // The digits up to the exponent.
  function Digits(t: string): (ds: seq<nat>)
    ensures AreDigits(ds)
    decreases |t|
  {
    if |t| == 0 || IsExponentChar(t[0]) then []
    else if IsDigit(t[0]) then [DigitValue(t[0])] + Digits(t[1..])
    else Digits(t[1..])
  }

  function DigitsBeforePoint(t: string): nat
    decreases |t|
  {
    if |t| == 0 || t[0] == '.' then 0
    else (if IsDigit(t[0]) then 1 else 0) + DigitsBeforePoint(t[1..])
  }

  // What preparse_fraction counts are the digits before the decimal point of the mantissa,
  // and it stops at the exponent.
  lemma {:induction false} MantissaShape(s: string, i: nat, first: nat, last: int, point: bool, digits: nat)
    requires i <= |s| && last <= i
    ensures var m := ScanMantissa(s, i, first, last, point, digits);
            m.integerDigits == digits + (if point then 0 else DigitsBeforePoint(s[i..m.end]))
    ensures forall k :: i <= k < ScanMantissa(s, i, first, last, point, digits).end ==>
      !IsExponentChar(s[k])
    decreases |s| - i
  {
    var m := ScanMantissa(s, i, first, last, point, digits);
    if m.end > i {
      assert s[i..m.end][1..] == s[i + 1..m.end];
      if s[i] == '_' && last == i {
        MantissaShape(s, i + 1, first, last, point, digits);
      } else if s[i] == '.' && !point && (last == i || first == i) {
        MantissaShape(s, i + 1, first, last, true, digits);
      } else {
        MantissaShape(s, i + 1, first, i + 1, point, if point then digits else digits + 1);
      }
    }
  }

  // One step of a loop over the text that takes the digits one by one.
  lemma NextDigit(t: string, p: nat, ds: seq<nat>, n: nat)
    requires p <= |t| && Digits(t[p..]) == Rest(ds, n)
    ensures p == |t| || IsExponentChar(t[p]) ==> n >= |ds| && Rest(ds, n + 1) == Rest(ds, n)
    ensures p < |t| && IsDigit(t[p]) ==>
      n < |ds| && ds[n] == DigitValue(t[p]) && Digits(t[p + 1..]) == Rest(ds, n + 1)
    ensures p < |t| && !IsExponentChar(t[p]) && !IsDigit(t[p]) ==> Digits(t[p + 1..]) == Rest(ds, n)
  {
    var rest := Rest(ds, n);
    if p < |t| && !IsExponentChar(t[p]) {
      assert t[p..][1..] == t[p + 1..];
      if IsDigit(t[p]) {
        assert rest == [DigitValue(t[p])] + Digits(t[p + 1..]);
        assert rest[0] == ds[n] && rest[1..] == Rest(ds, n + 1);
      }
    } else {
      assert |rest| == 0;
    }
  }

  lemma NothingPadded(ds: seq<nat>)
    ensures Padded(ds, 0) == [] && Nat(Padded(ds, 0)) == 0 && Rest(ds, 0) == ds
  {
  }

  // The first n digits, with zeros where they run out, and the digits after them.
  function Padded(ds: seq<nat>, n: nat): (r: seq<nat>)
    ensures |r| == n
  {
    if n <= |ds| then ds[..n] else ds + ZeroDigits(n - |ds|)
  }

  function Rest(ds: seq<nat>, n: nat): (r: seq<nat>)
    ensures AreDigits(ds) ==> AreDigits(r)
  {
    if n <= |ds| then ds[n..] else []
  }

  lemma NatPadded(ds: seq<nat>, n: nat)
    ensures Nat(Padded(ds, n + 1))
         == 10 * Nat(Padded(ds, n)) + (if n < |ds| then ds[n] else 0)
  {
    NatPush(Padded(ds, n), if n < |ds| then ds[n] else 0);
    if n < |ds| {
      assert ds[..n + 1] == ds[..n] + [ds[n]];
    } else {
      assert ds + ZeroDigits(n + 1 - |ds|) == (ds + ZeroDigits(n - |ds|)) + [0];
      assert Padded(ds, n) == ds + ZeroDigits(n - |ds|);
    }
  }

  function Saturated(n: nat): nat {
    if n < TWO64 then n else TWO64 - 1
  }

  // ----- The code -----------------------------------------------------------------------

  lemma PreparseIs(s: string, isSigned: bool, delta: int)
    ensures var i := SignLength(s, isSigned);
            var m := ScanMantissa(s, i, i, i - 1, false, 0);
            Preparse(s, isSigned, delta)
            == if m.lastDigit == i - 1 then Preparsed(0, delta + m.integerDigits)
               else WithExponent(s, m.end, delta + m.integerDigits)
  {
    hide WithExponent, ScanMantissa;
  }

  lemma ScanStep(s: string, i: nat, first: nat, last: int, point: bool, digits: nat)
    requires i <= |s| && last <= i
    ensures ScanMantissa(s, i, first, last, point, digits)
         == if i == |s| then Mantissa(i, last, digits)
            else if s[i] == '_' && last == i then ScanMantissa(s, i + 1, first, last, point, digits)
            else if s[i] == '.' && !point && (last == i || first == i) then
              ScanMantissa(s, i + 1, first, last, true, digits)
            else if IsDigit(s[i]) then
              ScanMantissa(s, i + 1, first, i + 1, point, if point then digits else digits + 1)
            else Mantissa(i, last, digits)
  {
  }

  method PreparseFraction(s: string, isSigned: bool, delta: int) returns (end: nat, integerDigits: int)
    ensures Preparsed(end, integerDigits) == Preparse(s, isSigned, delta)
  {
    hide WithExponent, ScanMantissa, Preparse;
    PreparseIs(s, isSigned, delta);
    integerDigits := delta;
    var p: nat := 0;
    if |s| > 0 && ((isSigned && s[0] == '-') || s[0] == '+') {
      p := 1;
    }
    var first: nat := p;
    var last: int, point := first - 1, false;
    ghost var m := ScanMantissa(s, first, first, first - 1, false, 0);
    while p != |s|
      invariant first <= p <= |s| && last <= p && integerDigits >= delta
      invariant ScanMantissa(s, p, first, last, point, integerDigits - delta)
             == m
      decreases |s| - p
    {
      ScanStep(s, p, first, last, point, integerDigits - delta);
      if s[p] == '_' && last == p {
      } else if s[p] == '.' && !point && (last == p || first == p) {
        point := true;
      } else if IsDigit(s[p]) {
        if !point {
          integerDigits := integerDigits + 1;
        }
        last := p + 1;
      } else {
        break;
      }
      p := p + 1;
    }
    ScanStep(s, p, first, last, point, integerDigits - delta);
    if last == first - 1 {
      return 0, integerDigits;
    }
    end, integerDigits := PreparseExponent(s, p, integerDigits);
  }

  // The optional exponent at the end of preparse_fraction.
  method PreparseExponent(s: string, i: nat, digits: int) returns (p: nat, integerDigits: int)
    requires i <= |s|
    ensures Preparsed(p, integerDigits) == WithExponent(s, i, digits)
  {
    p, integerDigits := i, digits;
    if p != |s| && IsExponentChar(s[p]) && p + 1 != |s| {
      p := p + (if s[p + 1] == '-' || s[p + 1] == '+' then 2 else 1);
      if p < |s| && IsDigit(s[p]) {
        var exponent: nat := DigitValue(s[p]);
        p := p + 1;
        ghost var run := ScanDigits(s, p, exponent);
        while p != |s| && IsDigit(s[p])
          invariant p <= |s| && ScanDigits(s, p, exponent) == run
          decreases |s| - p
        {
          exponent := 10 * exponent + DigitValue(s[p]);
          p := p + 1;
        }
        integerDigits := if s[i + 1] == '-' then integerDigits - exponent else integerDigits + exponent;
      } else {
        p := i;
      }
    }
  }

  // The integer part, saturated to 64 bits, and the position of the digits after it.
  method ParseIntegerPortion(t: string, digits: nat) returns (p: nat, ivalue: nat, range: bool)
    ensures p <= |t|
    ensures ivalue == Saturated(Nat(Padded(Digits(t), digits)))
    ensures range <==> Nat(Padded(Digits(t), digits)) >= TWO64
    ensures Digits(t[p..]) == Rest(Digits(t), digits)
  {
    hide Digits, Padded, Rest, Nat;
    var thresh := (TWO64 - 1) / 10;
    var threshDigit := TWO64 - 1 - thresh * 10;
    var ds := Digits(t);
    ghost var n := 0;
    var integerDigits := digits;
    p, ivalue, range := 0, 0, false;
    assert t[0..] == t;
    NothingPadded(ds);
    while integerDigits > 0
      invariant p <= |t| && integerDigits + n == digits
      invariant ivalue == Saturated(Nat(Padded(ds, n)))
      invariant range <==> Nat(Padded(ds, n)) >= TWO64
      invariant Digits(t[p..]) == Rest(ds, n)
      decreases integerDigits, |t| - p
    {
      NextDigit(t, p, ds, n);
      var digit;
      if p == |t| || IsExponentChar(t[p]) {
        digit := 0;
      } else if IsDigit(t[p]) {
        digit := DigitValue(t[p]);
        p := p + 1;
      } else {
        p := p + 1;
        continue;
      }
      NatPadded(ds, n);
      if ivalue > thresh || (ivalue == thresh && digit > threshDigit) {
        ivalue := TWO64 - 1;
        range := true;
      } else {
        ivalue := 10 * ivalue + digit;
      }
      integerDigits := integerDigits - 1;
      n := n + 1;
    }
  }
}
