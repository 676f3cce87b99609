/**
 Texts made of digits and at most one decimal point, as the printers of `lib/confparse.cc`
 write them, and what the readers of `lib/args.cc` see in them.
 */
module DecimalText {
  import opened Decimal
  import opened NumberText
  import IntegerText

  // An integer part, and a fraction part after a point when it is not empty.
  function DecimalString(a: seq<nat>, c: seq<nat>): string
    requires AreDigits(a) && AreDigits(c)
  {
    if |c| == 0 then Show(a) else Show(a) + ['.'] + Show(c)
  }

  lemma {:induction false} ScanRun(s: string, i: nat, j: nat, first: nat, last: int, point: bool, n: nat)
    requires i <= j <= |s| && last <= i
    requires forall k :: i <= k < j ==> IsDigit(s[k])
    ensures ScanMantissa(s, i, first, last, point, n)
         == ScanMantissa(s, j, first, if i < j then j else last, point, if point then n else n + (j - i))
    decreases j - i
  {
    if i < j {
      ScanRun(s, i + 1, j, first, i + 1, point, if point then n else n + 1);
    }
  }

  lemma {:induction false} DigitsRun(ds: seq<nat>, t: string)
    requires AreDigits(ds)
    ensures Digits(Show(ds) + t) == ds + Digits(t)
    decreases |ds|
  {
    var s := Show(ds) + t;
    if |ds| == 0 {
      assert s == t;
    } else {
      assert Show(ds)[1..] == Show(ds[1..]);
      assert s[0] == DigitChar(ds[0]) && s[1..] == Show(ds[1..]) + t;
      DigitsRun(ds[1..], t);
    }
  }

  lemma DigitsOfNone(t: string)
    ensures |t| == 0 ==> Digits(t) == []
  {
  }

  // The readers take the whole text, count the integer digits and see all digits.
  lemma ReadDecimalString(a: seq<nat>, c: seq<nat>, isSigned: bool, delta: int)
    requires AreDigits(a) && AreDigits(c) && |a| > 0
    ensures var t := DecimalString(a, c);
            |t| > 0 && Preparse(t, isSigned, delta) == Preparsed(|t|, delta + |a|) && Digits(t) == a + c
  {
    if |c| == 0 {
      ReadInteger(a, DecimalString(a, c), isSigned, delta);
      assert a + c == a;
    } else {
      ScanFraction(a, c, DecimalString(a, c), isSigned, delta);
      FractionDigits(a, c, DecimalString(a, c));
    }
  }

  lemma ReadInteger(a: seq<nat>, t: string, isSigned: bool, delta: int)
    requires AreDigits(a) && |a| > 0 && t == Show(a)
    ensures Preparse(t, isSigned, delta) == Preparsed(|t|, delta + |a|) && Digits(t) == a
  {
    hide Digits;
    ScanRun(t, 0, |a|, 0, -1, false, 0);
    DigitsRun(a, t[|t|..]);
    DigitsOfNone(t[|t|..]);
    assert Show(a) + t[|t|..] == t && a + [] == a;
  }

  lemma ScanFraction(a: seq<nat>, c: seq<nat>, t: string, isSigned: bool, delta: int)
    requires AreDigits(a) && AreDigits(c) && |a| > 0 && |c| > 0 && t == Show(a) + ['.'] + Show(c)
    ensures Preparse(t, isSigned, delta) == Preparsed(|t|, delta + |a|)
  {
    var n := |a|;
    forall k | 0 <= k < n ensures IsDigit(t[k]) {
      assert t[k] == Show(a)[k];
    }
    forall k | n + 1 <= k < |t| ensures IsDigit(t[k]) {
      assert t[k] == Show(c)[k - n - 1];
    }
    ScanRun(t, 0, n, 0, -1, false, 0);
    assert t[n] == '.';
    assert ScanMantissa(t, n, 0, n, false, n) == ScanMantissa(t, n + 1, 0, n, true, n);
    ScanRun(t, n + 1, |t|, 0, n, true, n);
    assert ScanMantissa(t, |t|, 0, |t|, true, n) == Mantissa(|t|, |t|, n);
  }

  lemma FractionDigits(a: seq<nat>, c: seq<nat>, t: string)
    requires AreDigits(a) && AreDigits(c) && t == Show(a) + ['.'] + Show(c)
    ensures Digits(t) == a + c
  {
    hide Digits;
    var none := t[|t|..];
    DigitsRun(c, none);
    DigitsOfNone(none);
    assert Show(c) + none == Show(c) && c + [] == c;
    DigitsRun(a, ['.'] + Show(c));
    DigitsOfPoint(Show(c));
    assert t == Show(a) + (['.'] + Show(c));
  }

  lemma DigitsOfPoint(t: string)
    ensures Digits(['.'] + t) == Digits(t)
  {
    assert (['.'] + t)[1..] == t;
  }

  // The digits as StringAccum prints them are the numeral in base ten.
  lemma {:induction false} NumeralIsShow(n: nat)
    ensures IntegerText.Numeral(n, 10) == Show(DigitsOf(n))
    decreases n
  {
    hide IntegerText.DigitIn;
    if n >= 10 {
      var q := IntegerText.Div(n, 10);
      assert q == n / 10 && n - 10 * q == n % 10;
      NumeralIsShow(q);
      assert Show(DigitsOf(q) + [n % 10]) == Show(DigitsOf(q)) + [DigitChar(n % 10)];
    } else {
      assert Show([n]) == [DigitChar(n)];
    }
  }
}
