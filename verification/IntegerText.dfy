/**
 Integers as text: `IntArg` of `lib/args.cc`, for integers of one 32-bit limb, and the
 numerals that sprintf and StringAccum write.
 */
module IntegerText {
  import opened Widths
  import opened NumberArg
  import Decimal

  // ----- The extent of an integer -------------------------------------------------------

  // The value of a digit in base b, or -1.
  function DigitIn(c: char, b: nat): (d: int)
    ensures -1 <= d < 36
  {
    var letters := if 10 < b <= 36 then b - 10 else 0;
    if '0' <= c <= '9' then c as int - '0' as int
    else if 'A' <= c && c as int < 'A' as int + letters then c as int - 'A' as int + 10
    else if 'a' <= c && c as int < 'a' as int + letters then c as int - 'a' as int + 10
    else -1
  }

  // The digits that make up an integer in base b are the ones below b.
  predicate IsDigit(c: char, b: nat) {
    0 <= DigitIn(c, b) < b
  }

  // One past the last digit of a run of digits; single underscores may stand between them.
  function RunEnd(s: string, i: nat, last: int, b: nat): (r: (nat, int))
    requires i <= |s| && last <= i
    ensures i <= r.0 <= |s| && last <= r.1 <= r.0
    ensures r.0 > i && last < i ==> r.1 > i
    decreases |s| - i
  {
    if i < |s| && s[i] == '_' && last == i then RunEnd(s, i + 1, last, b)
    else if i < |s| && IsDigit(s[i], b) then RunEnd(s, i + 1, i + 1, b)
    else (i, last)
  }

  // Where the digits start, and their base: base 0 goes by the prefix.
  function Start(s: string, i: nat, base: nat): (r: (nat, nat))
    requires i <= |s|
    ensures i <= r.0 <= |s| && r.0 <= i + 2
    ensures base != 0 ==> r.1 == base
  {
    if (base == 0 || base == 16) && i + 2 < |s| && s[i] == '0' && (s[i + 1] == 'x' || s[i + 1] == 'X') then
      (i + 2, 16)
    else if base == 0 && i + 2 < |s| && s[i] == '0' && (s[i + 1] == 'b' || s[i + 1] == 'B') then (i + 2, 2)
    else if base == 0 && i < |s| && s[i] == '0' then (i, 8)
    else if base == 0 then (i, 10)
    else (i, base)
  }

  // The length of the integer at the front of s (0 when there is none), and its base.
  function Span(s: string, isSigned: bool, base: nat): (r: (nat, nat))
    ensures r.0 <= |s|
  {
    var (first, b) := Start(s, SignLength(s, isSigned), base);
    var (end, last) := RunEnd(s, first, first - 1, b);
    (if end != first then last else if first > 1 then first - 1 else 0, b)
  }

  // ----- Its value ----------------------------------------------------------------------

  // The number that the digits of t stand for; other characters do not count.
  function Value(t: string, b: nat): nat
    decreases |t|, b
  {
    if |t| == 0 then 0
    else
      var d, v := DigitIn(t[|t| - 1], b), Value(t[..|t| - 1], b);
      if d >= 0 then v * b + d else v
  }

  predicate Negative(s: string, isSigned: bool) {
    isSigned && |s| > 0 && s[0] == '-'
  }

  // The largest magnitude of a 32-bit integer.
  function Limit(isSigned: bool, negative: bool): nat {
    if !isSigned then TWO32 - 1 else if negative then TWO31 else TWO31 - 1
  }

  // The closest representable integer.
  function Clamped(n: nat, isSigned: bool, negative: bool): int {
    var m := if n <= Limit(isSigned, negative) then n else Limit(isSigned, negative);
    if negative then -m else m
  }

  datatype Integer = Integer(end: nat, value: int, status: Status)

  function ParseInteger(s: string, isSigned: bool, base: nat): (r: Integer)
    ensures r.end <= |s|
  {
    var (end, b) := Span(s, isSigned, base);
    if b < 2 || b > 36 || end == 0 then Integer(0, 0, Inval)
    else
      var n, negative := Value(s[..end], b), Negative(s, isSigned);
      Integer(end, Clamped(n, isSigned, negative), if n <= Limit(isSigned, negative) then Ok else Range)
  }

  // ----- Printing -----------------------------------------------------------------------

  function DigitText(d: nat, upper: bool): (c: char)
    requires d < 36
    ensures forall b :: d < b <= 36 ==> DigitIn(c, b) == d
    ensures d < 10 ==> '0' <= c <= '9'
  {
    if d < 10 then Decimal.DigitChar(d) else (if upper then 'A' else 'a') + (d - 10) as char
  }

  // The numeral of n in base b, with letters for the digits from ten on.
  function Numeral(n: nat, b: nat, upper: bool := false): (t: string)
    requires 2 <= b <= 36
    ensures |t| > 0 && forall i :: 0 <= i < |t| ==> IsDigit(t[i], b) && (b <= 10 ==> '0' <= t[i] <= '9')
    decreases n, b
  {
    if n < b then [DigitText(n, upper)]
    else Numeral(Div(n, b), b, upper) + [DigitText(n - b * Div(n, b), upper)]
  }

  function Div(n: nat, b: nat): (q: nat)
    requires b >= 2
    ensures b * q <= n < b * q + b
    ensures n >= b ==> 0 < q < n
  {
    Decimal.DivBounds(n, b);
    Decimal.MulLe(2, b, n / b);
    Decimal.MulSwap(b, n / b);
    n / b
  }

  lemma {:induction false} NumeralValue(n: nat, b: nat, upper: bool := false)
    requires 2 <= b <= 36
    ensures Value(Numeral(n, b, upper), b) == n
    decreases n, b
  {
    hide DigitIn;
    var t := Numeral(n, b, upper);
    if n >= b {
      NumeralValue(Div(n, b), b, upper);
      assert t[..|t| - 1] == Numeral(Div(n, b), b, upper);
      Decimal.MulSwap(b, Div(n, b));
    } else {
      assert t[..0] == [];
      assert Value([], b) == 0;
    }
  }

  // A numeral that is no number but zero starts with no zero.
  lemma {:induction false} NumeralStart(n: nat, b: nat, upper: bool := false)
    requires 2 <= b <= 36
    ensures Numeral(n, b, upper)[0] == '0' ==> n == 0
    decreases n, b
  {
    hide DigitIn;
    if n >= b {
      NumeralStart(Div(n, b), b, upper);
    } else {
      assert DigitIn(DigitText(n, upper), b) == n && DigitIn('0', b) == 0 by { ZeroIn(b); }
    }
  }

  lemma ZeroIn(b: nat)
    ensures DigitIn('0', b) == 0
  {
  }

  function Power(b: nat, k: nat): nat {
    if k == 0 then 1 else b * Power(b, k - 1)
  }

  lemma {:induction false} NumeralLength(n: nat, b: nat, k: nat)
    requires 2 <= b <= 36 && k >= 1 && n < Power(b, k)
    ensures |Numeral(n, b)| <= k
    decreases k
  {
    assert Power(b, 1) == b * Power(b, 0) == b;
    if n >= b {
      Cancel(b, Div(n, b), Power(b, k - 1));
      NumeralLength(Div(n, b), b, k - 1);
    }
  }

  lemma Cancel(b: nat, x: nat, y: nat)
    requires b * x < b * y
    ensures x < y
  {
    if x >= y {
      Decimal.MulLe(y, x, b);
    }
  }

  lemma {:induction false} RunOver(s: string, i: nat, j: nat, last: int, b: nat)
    requires i < j <= |s| && last <= i
    requires forall k :: i <= k < j ==> IsDigit(s[k], b) && s[k] != '_'
    requires j < |s| ==> !IsDigit(s[j], b) && s[j] != '_'
    ensures RunEnd(s, i, last, b) == (j, j)
    decreases j - i
  {
    if i + 1 < j {
      RunOver(s, i + 1, j, i + 1, b);
    }
  }

  // Characters in front that stand for no number leave the value alone.
  lemma {:induction false} ValueSkip(front: string, t: string, b: nat)
    requires Value(front, b) == 0
    ensures Value(front + t, b) == Value(t, b)
    decreases |t|
  {
    hide DigitIn;
    var s := front + t;
    if |t| == 0 {
      assert s == front;
    } else {
      assert s[..|s| - 1] == front + t[..|t| - 1];
      ValueSkip(front, t[..|t| - 1], b);
    }
  }

  // What may stand in front of a number: a sign, and what tells the base.
  predicate IsSign(sign: string, isSigned: bool) {
    |sign| == 0 || sign == ['+'] || (isSigned && sign == ['-'])
  }

  predicate IsPrefix(prefix: string, b: nat, base: nat) {
    || (|prefix| == 0 && (base == b || (base == 0 && b == 10)))
    || ((prefix == ['0', 'x'] || prefix == ['0', 'X']) && b == 16 && (base == 16 || base == 0))
    || ((prefix == ['0', 'b'] || prefix == ['0', 'B']) && b == 2 && base == 0)
    || (prefix == ['0'] && b == 8 && base == 0)
  }

  // A text that ends a number in base b.
  predicate Ends(rest: string, b: nat) {
    |rest| > 0 ==> !IsDigit(rest[0], b) && rest[0] != '_'
  }

  // A text that does not make a prefix, or an octal number, of a zero in front.
  predicate NoPrefix(rest: string, base: nat) {
    && (base == 0 && |rest| > 0 ==> !IsDigit(rest[0], 8))
    && (base == 0 && |rest| > 1 ==> rest[0] !in ['x', 'X', 'b', 'B'])
    && (base == 16 && |rest| > 1 ==> rest[0] !in ['x', 'X'])
  }

  // A printed number is read back in any base, up to the largest representable one, with its
  // sign and prefix, and the reader stops behind it. Where the base is left to the prefix, a
  // zero counts as octal.
  lemma ReadPrinted(n: nat, b: nat, base: nat, upper: bool, isSigned: bool, sign: string, prefix: string,
                    rest: string)
    requires 2 <= b <= 36 && IsSign(sign, isSigned) && IsPrefix(prefix, b, base)
    requires Ends(rest, b) && (n == 0 && |prefix| == 0 ==> NoPrefix(rest, base))
    ensures var t, negative := sign + prefix + Numeral(n, b, upper), sign == ['-'];
            ParseInteger(t + rest, isSigned, base)
            == Integer(|t|, Clamped(n, isSigned, negative), if n <= Limit(isSigned, negative) then Ok else Range)
  {
    hide Value, IsDigit, RunEnd, Start, Numeral, IsSign, IsPrefix, Limit, ParseInteger, SignLength, Negative;
    var t, front := Numeral(n, b, upper), sign + prefix;
    var s := front + t + rest;
    var end, first := |front| + |t|, if prefix == ['0'] then |sign| else |front|;
    var b' := if base == 0 && n == 0 && |prefix| == 0 then 8 else b;
    NumeralDigits(n, b, upper, b');
    PrintedStarts(t, b, base, n == 0, isSigned, sign, prefix, rest);
    PrintedDigits(sign, prefix, t, rest, first, b');
    FrontIsNothing(sign, prefix, isSigned, b, base, b');
    ValueSkip(front, t, b');
    NumeralValue(n, b, upper);
    NumeralValue(0, 8, upper);
    assert s[..end] == front + t;
    ReadAt(s, isSigned, base, first, end, b', n);
  }

  // Reading a run of digits behind the sign and what else is in front.
  lemma ReadAt(s: string, isSigned: bool, base: nat, first: nat, end: nat, b: nat, n: nat)
    requires first < end <= |s| && 2 <= b <= 36 && Start(s, SignLength(s, isSigned), base) == (first, b)
    requires forall k :: first <= k < end ==> IsDigit(s[k], b) && s[k] != '_'
    requires end < |s| ==> !IsDigit(s[end], b) && s[end] != '_'
    requires Value(s[..end], b) == n
    ensures var negative := Negative(s, isSigned);
            ParseInteger(s, isSigned, base)
            == Integer(end, Clamped(n, isSigned, negative), if n <= Limit(isSigned, negative) then Ok else Range)
  {
    hide Value, DigitIn, RunEnd, Start, Limit, SignLength, Negative;
    RunOver(s, first, end, first - 1, b);
  }

  lemma PrintedDigits(sign: string, prefix: string, t: string, rest: string, first: nat, b: nat)
    requires first == (if prefix == ['0'] then |sign| else |sign| + |prefix|) && b >= 2
    requires forall k :: 0 <= k < |t| ==> IsDigit(t[k], b) && t[k] != '_'
    requires Ends(rest, b)
    ensures var s, end := sign + prefix + t + rest, |sign| + |prefix| + |t|;
            (forall k :: first <= k < end ==> IsDigit(s[k], b) && s[k] != '_')
            && (end < |s| ==> !IsDigit(s[end], b) && s[end] != '_')
  {
    hide DigitIn;
    ZeroIn(b);
    var s, front := sign + prefix + t + rest, |sign| + |prefix|;
    forall k | first <= k < front + |t| ensures IsDigit(s[k], b) && s[k] != '_' {
      if k >= front {
        assert s[k] == t[k - front];
      } else {
        assert s[k] == prefix[k - |sign|] == '0';
      }
    }
  }

  lemma NumeralDigits(n: nat, b: nat, upper: bool, b': nat)
    requires 2 <= b <= 36 && (b' == b || (n == 0 && b' == 8))
    ensures n == 0 ==> Numeral(n, b, upper) == Numeral(0, 8, upper) == ['0']
    ensures var t := Numeral(n, b, upper);
            forall k :: 0 <= k < |t| ==> IsDigit(t[k], b') && t[k] !in ['+', '-', '_']
    ensures var c := Numeral(n, b, upper)[0]; (c == '0' ==> n == 0) && (b <= 10 ==> '0' <= c <= '9')
  {
    hide DigitIn;
    ZeroIn(b');
    NumeralStart(n, b, upper);
    NoSign(Numeral(n, b, upper), b);
  }

  lemma FrontIsNothing(sign: string, prefix: string, isSigned: bool, b: nat, base: nat, b': nat)
    requires IsSign(sign, isSigned) && IsPrefix(prefix, b, base) && (b' == b || |prefix| == 0)
    ensures Value(sign + prefix, b') == 0
  {
    hide IsPrefix, IsSign, Value;
    SignIsNothing(sign, isSigned, b');
    PrefixIsNothing(prefix, b, base);
    if |prefix| == 0 {
      assert sign + prefix == sign;
    } else {
      ValueSkip(sign, prefix, b');
    }
  }

  lemma SignIsNothing(sign: string, isSigned: bool, b: nat)
    requires IsSign(sign, isSigned)
    ensures Value(sign, b) == 0
  {
    assert |sign| == 1 ==> |sign[..0]| == 0;
  }

  lemma ValueOfNone(t: string, b: nat)
    requires |t| == 0
    ensures Value(t, b) == 0
  {
  }

  lemma ValueOfOne(c: char, b: nat)
    ensures Value([c], b) == if DigitIn(c, b) >= 0 then DigitIn(c, b) else 0
  {
    hide DigitIn;
    assert |[c][..0]| == 0;
  }

  lemma PrefixIsNothing(prefix: string, b: nat, base: nat)
    requires IsPrefix(prefix, b, base)
    ensures Value(prefix, b) == 0
  {
    hide Value;
    if |prefix| > 0 {
      ValueOfOne(prefix[0], b);
      assert prefix[..1] == [prefix[0]];
      if |prefix| == 2 {
        ValueOfOne(prefix[1], b);
        ValueSkip([prefix[0]], [prefix[1]], b);
        assert prefix == [prefix[0]] + [prefix[1]];
      } else {
        assert prefix == [prefix[0]];
      }
    } else {
      ValueOfNone(prefix, b);
    }
  }

  // Behind the sign and prefix comes the numeral, in the base that they tell.
  lemma PrintedStarts(t: string, b: nat, base: nat, zero: bool, isSigned: bool, sign: string, prefix: string,
                      rest: string)
    requires 2 <= b <= 36 && IsSign(sign, isSigned) && IsPrefix(prefix, b, base)
    requires |t| > 0 && (forall k :: 0 <= k < |t| ==> t[k] !in ['+', '-', '_'])
    requires (zero ==> t == ['0']) && (t[0] == '0' ==> zero) && (b == 8 ==> '0' <= t[0] <= '9')
    requires zero && |prefix| == 0 ==> NoPrefix(rest, base)
    ensures var s := sign + prefix + t + rest;
            SignLength(s, isSigned) == |sign| && (Negative(s, isSigned) <==> sign == ['-'])
    ensures Start(sign + prefix + t + rest, |sign|, base)
         == (if prefix == ['0'] then |sign| else |sign| + |prefix|,
             if base == 0 && zero && |prefix| == 0 then 8 else b)
  {
    hide IsDigit;
    var s := sign + prefix + t + rest;
    if |prefix| == 0 {
      assert s[|sign|] == t[0];
      if zero && |rest| > 0 {
        assert s[|sign| + 1] == rest[0];
      }
    } else {
      assert s[|sign|] == prefix[0];
      if |prefix| == 2 {
        assert s[|sign| + 1] == prefix[1];
      } else {
        assert s[|sign| + 1] == t[0];
      }
    }
  }

  lemma NoSign(t: string, b: nat)
    requires forall i :: 0 <= i < |t| ==> IsDigit(t[i], b)
    ensures forall i :: 0 <= i < |t| ==> t[i] !in ['+', '-', '_']
  {
  }

  // ----- Underscores --------------------------------------------------------------------

  lemma {:induction false} RunBarred(s: string, i: nat, last: int, t: string, bars: seq<bool>, more: string, b: nat)
    requires |t| == |bars| && i <= |s| && last <= i && From(s, i) == Cat(Underscored(t, bars), more)
    requires forall k :: 0 <= k < |t| ==> IsDigit(t[k], b) && t[k] != '_'
    ensures var j := i + |Underscored(t, bars)|;
            var l := if |t| == 0 then last else if EndsBarred(bars) then j - 1 else j;
            j <= |s| && From(s, j) == more && l <= j && RunEnd(s, i, last, b) == RunEnd(s, j, l, b)
    decreases |t|
  {
    hide RunEnd, IsDigit, Underscored, EndsBarred, Cat, From;
    Behind(s, i, Underscored(t, bars), more);
    if |t| > 0 {
      UnderscoredFirst(t, bars);
      var u, bar := Underscored(t[1..], bars[1..]), Bar(bars[0]);
      Regrouped([t[0]], bar, u, more);
      Behind(s, i, [t[0]], Cat(bar, Cat(u, more)));
      RunNext(s, i, last, b);
      Behind(s, i + 1, bar, Cat(u, more));
      if bars[0] {
        RunNext(s, i + 1, i + 1, b);
      }
      RunBarred(s, i + 1 + |bar|, i + 1, t[1..], bars[1..], more, b);
    }
  }

  lemma RunNext(s: string, i: nat, last: int, b: nat)
    requires i <= |s| && last <= i
    ensures RunEnd(s, i, last, b)
         == if i < |s| && s[i] == '_' && last == i then RunEnd(s, i + 1, last, b)
            else if i < |s| && IsDigit(s[i], b) then RunEnd(s, i + 1, i + 1, b)
            else (i, last)
  {
  }

  // What is in front of a number counts only with its value.
  lemma {:induction false} ValueAfter(front: string, front': string, t: string, b: nat)
    requires Value(front, b) == Value(front', b)
    ensures Value(front + t, b) == Value(front' + t, b)
    decreases |t|
  {
    hide DigitIn;
    if |t| == 0 {
      assert front + t == front && front' + t == front';
    } else {
      assert (front + t)[..|front + t| - 1] == front + t[..|t| - 1];
      assert (front' + t)[..|front' + t| - 1] == front' + t[..|t| - 1];
      ValueAfter(front, front', t[..|t| - 1], b);
    }
  }

  lemma ValueBar(front: string, bar: bool, b: nat)
    ensures Value(front + Bar(bar), b) == Value(front, b)
  {
    if bar {
      assert (front + ['_'])[..|front|] == front;
    } else {
      assert front + [] == front;
    }
  }

  // Underscores add nothing to a number.
  lemma {:induction false} ValueBarred(front: string, t: string, bars: seq<bool>, b: nat)
    requires |t| == |bars|
    ensures Value(front + Underscored(t, bars), b) == Value(front + t, b)
    decreases |t|
  {
    hide Value, Underscored;
    if |t| > 0 {
      UnderscoredFirst(t, bars);
      var u, bar, next := Underscored(t[1..], bars[1..]), Bar(bars[0]), front + [t[0]];
      assert front + ([t[0]] + (bar + u)) == next + bar + u;
      assert front + t == next + t[1..];
      ValueBarred(next + bar, t[1..], bars[1..], b);
      ValueBar(next, bars[0], b);
      ValueAfter(next + bar, next, t[1..], b);
    } else {
      assert Underscored(t, bars) == t;
    }
  }

  lemma ValueTo(front: string, t: string, bars: seq<bool>, b: nat)
    requires |t| == |bars| > 0
    ensures var u := front + Underscored(t, bars);
            var l := if EndsBarred(bars) then |u| - 1 else |u|;
            0 <= l <= |u| && Value(u[..l], b) == Value(front + t, b)
  {
    hide Value, Underscored;
    var u := front + Underscored(t, bars);
    ValueBarred(front, t, bars, b);
    if EndsBarred(bars) {
      LastBar(t, bars);
      assert u == u[..|u| - 1] + Bar(true);
      ValueBar(u[..|u| - 1], true, b);
    } else {
      assert u[..|u|] == u;
    }
  }

  lemma {:induction false} LastBar(t: string, bars: seq<bool>)
    requires |t| == |bars| && EndsBarred(bars)
    ensures var u := Underscored(t, bars); u[|u| - 1] == '_'
    decreases |t|
  {
    if |t| > 1 {
      LastBar(t[1..], bars[1..]);
    }
  }

  // A printed number with single underscores behind its digits is read back too; the reader
  // does not take an underscore at the end.
  lemma ReadBarred(n: nat, b: nat, base: nat, upper: bool, isSigned: bool, sign: string, prefix: string,
                   bars: seq<bool>, rest: string)
    requires 2 <= b <= 36 && IsSign(sign, isSigned) && IsPrefix(prefix, b, base)
    requires |bars| == |Numeral(n, b, upper)|
    requires if EndsBarred(bars) then |rest| > 0 ==> !IsDigit(rest[0], b) else Ends(rest, b)
    requires n == 0 && |prefix| == 0 && !bars[0] ==> NoPrefix(rest, base)
    ensures var t, negative := sign + prefix + Underscored(Numeral(n, b, upper), bars), sign == ['-'];
            ParseInteger(t + rest, isSigned, base)
            == Integer(if EndsBarred(bars) then |t| - 1 else |t|, Clamped(n, isSigned, negative),
                       if n <= Limit(isSigned, negative) then Ok else Range)
  {
    hide Value, IsDigit, RunEnd, Start, Numeral, IsSign, IsPrefix, Limit, ParseInteger, SignLength, Negative;
    hide Underscored, EndsBarred, NoPrefix, Ends;
    var t, front := Numeral(n, b, upper), sign + prefix;
    var u := Underscored(t, bars);
    var b' := if base == 0 && n == 0 && |prefix| == 0 then 8 else b;
    NumeralDigits(n, b, upper, b');
    BarredStarts(n, b, base, upper, isSigned, sign, prefix, bars, rest);
    NoPrefixTen(prefix, b, base);
    BarredRun(n, b, upper, sign, prefix, bars, rest, b');
    FrontIsNothing(sign, prefix, isSigned, b, base, b');
    ValueSkip(front, t, b');
    NumeralValue(n, b, upper);
    NumeralValue(0, 8, upper);
    ValueTo(front, t, bars, b');
    var l := |front| + |u| - if EndsBarred(bars) then 1 else 0;
    FrontOf(front + u, rest, l);
    ReadSpan(front + u + rest, isSigned, base, if prefix == ['0'] then |sign| else |front|, l, b', n);
  }

  lemma FrontOf(t: string, rest: string, l: nat)
    requires l <= |t|
    ensures (t + rest)[..l] == t[..l]
  {
  }

  lemma NoPrefixTen(prefix: string, b: nat, base: nat)
    requires IsPrefix(prefix, b, base) && b >= 2
    ensures |prefix| == 0 && base == 0 ==> b == 10
  {
  }

  lemma ReadSpan(s: string, isSigned: bool, base: nat, first: nat, last: nat, b: nat, n: nat)
    requires first < last <= |s| && 2 <= b <= 36 && Start(s, SignLength(s, isSigned), base) == (first, b)
    requires RunEnd(s, first, first - 1, b).0 > first && RunEnd(s, first, first - 1, b).1 == last
    requires Value(s[..last], b) == n
    ensures var negative := Negative(s, isSigned);
            ParseInteger(s, isSigned, base)
            == Integer(last, Clamped(n, isSigned, negative), if n <= Limit(isSigned, negative) then Ok else Range)
  {
    hide Value, RunEnd, Start, Limit, SignLength, Negative;
  }

  lemma BarredStarts(n: nat, b: nat, base: nat, upper: bool, isSigned: bool, sign: string, prefix: string,
                     bars: seq<bool>, rest: string)
    requires 2 <= b <= 36 && IsSign(sign, isSigned) && IsPrefix(prefix, b, base)
    requires |bars| == |Numeral(n, b, upper)|
    requires n == 0 && |prefix| == 0 && !bars[0] ==> NoPrefix(rest, base)
    ensures var s := sign + prefix + Underscored(Numeral(n, b, upper), bars) + rest;
            SignLength(s, isSigned) == |sign| && (Negative(s, isSigned) <==> sign == ['-'])
            && Start(s, |sign|, base)
            == (if prefix == ['0'] then |sign| else |sign| + |prefix|,
                if base == 0 && n == 0 && |prefix| == 0 then 8 else b)
  {
    hide IsDigit, IsSign, IsPrefix, Start, SignLength, Negative, Numeral, NoPrefix, Underscored;
    var t := Numeral(n, b, upper);
    var u := Underscored(t, bars);
    NumeralDigits(n, b, upper, b);
    var more := u[1..] + rest;
    if n == 0 {
      UnderscoredFirst(t, bars);
      ZeroBarred(bars[0], rest, base);
      assert u == ['0'] + Bar(bars[0]) && u[1..] == Bar(bars[0]);
    }
    PrintedStarts([t[0]], b, base, n == 0, isSigned, sign, prefix, more);
    FirstApart(sign + prefix, u, rest);
  }

  lemma FirstApart(front: string, u: string, rest: string)
    requires |u| > 0
    ensures front + [u[0]] + (u[1..] + rest) == front + u + rest
  {
  }

  lemma ZeroBarred(bar: bool, rest: string, base: nat)
    ensures bar ==> NoPrefix(Bar(bar) + rest, base)
    ensures !bar ==> Bar(bar) + rest == rest
  {
  }

  lemma BarredRun(n: nat, b: nat, upper: bool, sign: string, prefix: string, bars: seq<bool>, rest: string, b': nat)
    requires 2 <= b <= 36 && |bars| == |Numeral(n, b, upper)| && (b' == b || (n == 0 && b' == 8 && b == 10))
    requires if EndsBarred(bars) then |rest| > 0 ==> !IsDigit(rest[0], b) else Ends(rest, b)
    ensures var u := Underscored(Numeral(n, b, upper), bars);
            var s, first := sign + prefix + u + rest, if prefix == ['0'] then |sign| else |sign| + |prefix|;
            RunEnd(s, first, first - 1, b')
            == (|s| - |rest|, if EndsBarred(bars) then |s| - |rest| - 1 else |s| - |rest|)
  {
    hide *;
    var t := Numeral(n, b, upper);
    var u, front := Underscored(t, bars), sign + prefix;
    var s, i := front + u + rest, |front|;
    NumeralDigits(n, b, upper, b');
    BarredParts(sign, prefix, u, rest);
    RunFromZero(s, |sign|, prefix, b');
    RestEnds(rest, bars, b, b');
    BarredRunAt(s, i, if prefix == ['0'] then i else i - 1, t, bars, rest, b');
  }

  // A text that ends a run, or stands behind its last underscore.
  predicate EndsRun(rest: string, bars: seq<bool>, b: nat) {
    |rest| > 0 ==> !IsDigit(rest[0], b) && (rest[0] == '_' ==> EndsBarred(bars))
  }

  lemma RestEnds(rest: string, bars: seq<bool>, b: nat, b': nat)
    requires if EndsBarred(bars) then |rest| > 0 ==> !IsDigit(rest[0], b) else Ends(rest, b)
    requires b' == b || (b' == 8 && b == 10)
    ensures EndsRun(rest, bars, b')
  {
    SmallerBase(rest, b, b');
  }

  lemma BarredRunAt(s: string, i: nat, last: int, t: string, bars: seq<bool>, rest: string, b: nat)
    requires |t| == |bars| > 0 && i <= |s| && last <= i && From(s, i) == Cat(Underscored(t, bars), rest)
    requires (forall k :: 0 <= k < |t| ==> IsDigit(t[k], b) && t[k] != '_') && EndsRun(rest, bars, b)
    ensures var j := i + |Underscored(t, bars)|;
            j == |s| - |rest| && RunEnd(s, i, last, b) == (j, if EndsBarred(bars) then j - 1 else j)
  {
    hide IsDigit, RunEnd, Underscored, EndsBarred, Cat, From;
    var u := Underscored(t, bars);
    RunBarred(s, i, last, t, bars, rest, b);
    Behind(s, i, u, rest);
    RunNext(s, i + |u|, if EndsBarred(bars) then i + |u| - 1 else i + |u|, b);
  }

  // The zero that tells base 8 is a digit too.
  lemma RunFromZero(s: string, i: nat, prefix: string, b: nat)
    requires i + |prefix| <= |s| && b >= 2 && (prefix == ['0'] ==> s[i] == '0')
    ensures prefix == ['0'] ==> RunEnd(s, i, i - 1, b) == RunEnd(s, i + 1, i + 1, b)
  {
    hide RunEnd, IsDigit;
    if prefix == ['0'] {
      ZeroDigit(b);
      RunNext(s, i, i - 1, b);
    }
  }

  lemma BarredParts(sign: string, prefix: string, u: string, rest: string)
    ensures var s, i := sign + prefix + u + rest, |sign| + |prefix|;
            From(s, i) == Cat(u, rest) && (|rest| > 0 ==> s[i + |u|] == rest[0])
            && (prefix == ['0'] ==> s[|sign|] == '0')
  {
  }

  lemma ZeroDigit(b: nat)
    requires b >= 2
    ensures IsDigit('0', b)
  {
  }

  lemma SmallerBase(rest: string, b: nat, b': nat)
    requires b' == b || (b' == 8 && b == 10)
    ensures |rest| > 0 && !IsDigit(rest[0], b) ==> !IsDigit(rest[0], b')
  {
  }

  // ----- No number ----------------------------------------------------------------------

  // A sign alone is no integer, and nor is a text that starts with no digit.
  lemma NotAnInteger(s: string, isSigned: bool, base: nat)
    requires base == 0 || 2 <= base <= 36
    requires var i := SignLength(s, isSigned); i < |s| ==> !IsDigit(s[i], if base == 0 then 10 else base)
    ensures ParseInteger(s, isSigned, base) == Integer(0, 0, Inval)
  {
  }

  // Behind a prefix must come a digit: without one, its zero is the number.
  lemma PrefixAlone(sign: string, prefix: string, rest: string, b: nat, base: nat, isSigned: bool)
    requires IsSign(sign, isSigned) && IsPrefix(prefix, b, base) && |prefix| == 2 && b in [2, 16]
    requires |rest| > 0 && !IsDigit(rest[0], b)
    ensures ParseInteger(sign + prefix + rest, isSigned, base) == Integer(|sign| + 1, 0, Ok)
  {
    hide Value, IsDigit;
    hide RunEnd, Start;
    var s, first := sign + prefix + rest, |sign| + 2;
    assert s[first] == rest[0];
    PrefixStarts(sign, prefix, rest, b, base, isSigned);
    RunNext(s, first, first - 1, b);
    assert s[..|sign| + 1] == sign + ['0'];
    SignIsNothing(sign, isSigned, b);
    ValueOfOne('0', b);
    ZeroIn(b);
    ValueSkip(sign, ['0'], b);
  }

  lemma PrefixStarts(sign: string, prefix: string, rest: string, b: nat, base: nat, isSigned: bool)
    requires IsSign(sign, isSigned) && IsPrefix(prefix, b, base) && |prefix| == 2 && |rest| > 0
    ensures var s := sign + prefix + rest;
            SignLength(s, isSigned) == |sign| && Start(s, |sign|, base) == (|sign| + 2, b)
            && s[|sign|] == '0'
  {
    var s := sign + prefix + rest;
    assert s[|sign|] == prefix[0] && s[|sign| + 1] == prefix[1];
  }

  // ----- Letters ------------------------------------------------------------------------

  const CAPITALS: string := "ABCDEFGHIJKLMNOPQRSTUVWXYZ"
  const SMALL: string := "abcdefghijklmnopqrstuvwxyz"

  // The digits from ten on are the letters, capital when asked for.
  lemma LetterDigits(d: nat)
    requires d < 26
    ensures DigitText(d + 10, true) == CAPITALS[d] && DigitText(d + 10, false) == SMALL[d]
  {
  }

  // Without sign and prefix, as a signed integer.
  lemma ReadNumeral(n: nat, b: nat, base: nat, rest: string)
    requires 2 <= b <= 10 && (base == b || (base == 0 && b == 10))
    requires Ends(rest, b) && (n == 0 ==> NoPrefix(rest, base))
    ensures var t := Numeral(n, b);
            ParseInteger(t + rest, true, base)
            == Integer(|t|, if n < TWO31 then n else TWO31 - 1, if n < TWO31 then Ok else Range)
  {
    hide ParseInteger, IsDigit, Numeral;
    ReadPrinted(n, b, base, false, true, [], [], rest);
    assert [] + [] + Numeral(n, b) == Numeral(n, b);
  }

  // ----- The code -----------------------------------------------------------------------

  class IntArg {
    const base: nat
    var status: Status

    constructor (b: nat)
      ensures base == b
    {
      base, status := b, Ok;
    }

    static method FindSpan(s: string, isSigned: bool, base: nat) returns (end: nat, b: nat)
      ensures (end, b) == Span(s, isSigned, base)
    {
      hide RunEnd, Start;
      var i: nat := 0;
      if i != |s| && ((isSigned && s[i] == '-') || s[i] == '+') {
        i := i + 1;
      }
      i, b := SkipPrefix(s, i, base);
      var last;
      end, last := FindRunEnd(s, i, b);
      if end != i {
        end := last;
      } else {
        end := if i > 1 then i - 1 else 0;
      }
    }

    static method SkipPrefix(s: string, start: nat, base: nat) returns (i: nat, b: nat)
      requires start <= |s|
      ensures (i, b) == Start(s, start, base)
    {
      i, b := start, base;
      if (b == 0 || b == 16) && i + 2 < |s| && s[i] == '0' && (s[i + 1] == 'x' || s[i + 1] == 'X') {
        i := i + 2;
        b := 16;
      } else if b == 0 && i + 2 < |s| && s[i] == '0' && (s[i + 1] == 'b' || s[i + 1] == 'B') {
        i := i + 2;
        b := 2;
      } else if b == 0 && i != |s| && s[i] == '0' {
        b := 8;
      } else if b == 0 {
        b := 10;
      }
    }

    static method FindRunEnd(s: string, first: nat, b: nat) returns (i: nat, last: int)
      requires first <= |s|
      ensures (i, last) == RunEnd(s, first, first - 1, b)
    {
      hide IsDigit;
      i, last := first, first - 1;
      while i != |s|
        invariant first <= i <= |s| && last <= i && RunEnd(s, i, last, b) == RunEnd(s, first, first - 1, b)
        decreases |s| - i
      {
        if s[i] == '_' && last == i {
        } else if IsDigit(s[i], b) {
          last := i + 1;
        } else {
          break;
        }
        i := i + 1;
      }
    }

    // Multiplies a one-limb number and adds a digit; the carry says what does not fit.
    static method MultiplyHalf(x: nat, b: nat, digit: nat) returns (y: nat, carry: nat)
      ensures y < TWO32 && carry * TWO32 + y == x * b + digit
    {
      var product := x * b + digit;
      y, carry := product % TWO32, product / TWO32;
    }

    static method Accumulate(t: string, b: nat) returns (value: nat, status: Status)
      requires 2 <= b <= 36
      ensures status == if Value(t, b) < TWO32 then Ok else Range
      ensures status.Ok? ==> value == Value(t, b)
    {
      var threshold := (TWO32 - 1) / 36;
      var v0: nat := 0;
      value, status := 0, Ok;
      var s: nat := 0;
      while s != |t|
        invariant s <= |t| && value < TWO32
        invariant status == if Value(t[..s], b) < TWO32 then Ok else Range
        invariant status.Ok? ==> value == Value(t[..s], b)
        invariant v0 < threshold ==> status.Ok? && v0 == value
        decreases |t| - s
      {
        var digit := DigitIn(t[s], b);
        assert t[..s + 1][..s] == t[..s];
        ghost var v := Value(t[..s], b);
        assert Value(t[..s + 1], b) == if digit >= 0 then v * b + digit else v;
        s := s + 1;
        if digit < 0 {
          continue;
        }
        Grows(v, b, digit);
        if v0 < threshold {
          Below(v0, b);
          v0 := v0 * b + digit;
          value := v0;
        } else {
          var carry;
          value, carry := MultiplyHalf(value, b, digit);
          if carry != 0 {
            status := Range;
          }
        }
      }
      assert t[..s] == t;
    }

    method Parse(s: string, isSigned: bool) returns (end: nat, value: int)
      modifies this`status
      ensures ParseInteger(s, isSigned, base) == Integer(end, value, status)
    {
      hide Value, Span;
      var b;
      value := 0;
      end, b := FindSpan(s, isSigned, base);
      if b < 2 || b > 36 || end == 0 {
        status := Inval;
        return 0, 0;
      }
      var word: nat, st := Accumulate(s[..end], b);
      status := st;
      var negative := isSigned && s[0] == '-';
      if status.Ok? && isSigned && word >= TWO31 + (if negative then 1 else 0) {
        status := Range;
      }
      if status.Range? {
        word := if negative then 0 else TWO32 - 1;
        if isSigned {
          word := if word >= TWO31 then word - TWO31 else word + TWO31;
        }
      }
      if negative {
        word := if word == 0 then 0 else TWO32 - word;
      }
      value := if isSigned && word >= TWO31 then word - TWO32 else word;
    }
  }

  lemma Grows(v: nat, b: nat, digit: nat)
    requires b >= 1
    ensures v * b + digit >= v
  {
  }

  lemma Below(v: nat, b: nat)
    requires v < (TWO32 - 1) / 36 && b <= 36
    ensures 0 <= v * b <= v * 36 < TWO32 - 36
  {
  }
}
