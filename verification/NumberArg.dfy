/**
 What the number readers of `lib/args.cc` have in common: their status and the sign.
 */
module NumberArg {
  datatype Status = Ok | Inval | Range

  function SignLength(s: string, isSigned: bool): (n: nat)
    ensures n <= 1 && n <= |s|
  {
    if |s| > 0 && ((isSigned && s[0] == '-') || s[0] == '+') then 1 else 0
  }

  // ----- Underscores --------------------------------------------------------------------

  function Bar(bar: bool): string {
    if bar then ['_'] else []
  }

  // Whether an underscore stands at the end.
  predicate EndsBarred(bars: seq<bool>) {
    |bars| > 0 && bars[|bars| - 1]
  }

  // Single underscores may stand behind digits: `bars` says behind which.
  function Underscored(t: string, bars: seq<bool>): (u: string)
    requires |bars| == |t|
    ensures |u| >= |t| + (if EndsBarred(bars) then 1 else 0)
    ensures if |t| == 0 then |u| == 0 else u[0] == t[0]
    decreases |t|
  {
    if |t| == 0 then [] else [t[0]] + (Bar(bars[0]) + Underscored(t[1..], bars[1..]))
  }

  lemma UnderscoredFirst(t: string, bars: seq<bool>)
    requires |t| == |bars| > 0
    ensures Underscored(t, bars) == [t[0]] + (Bar(bars[0]) + Underscored(t[1..], bars[1..]))
    ensures EndsBarred(bars) == if |bars| == 1 then bars[0] else EndsBarred(bars[1..])
  {
  }

  // ----- Parts of a text ----------------------------------------------------------------

  function Cat(a: string, b: string): string {
    a + b
  }

  function From(s: string, i: nat): string
    requires i <= |s|
  {
    s[i..]
  }

  // Where a text goes on behind a part of it.
  lemma Behind(s: string, i: nat, here: string, more: string)
    requires i <= |s| && From(s, i) == Cat(here, more)
    ensures i + |here| <= |s| && From(s, i + |here|) == more && (|here| > 0 ==> i < |s| && s[i] == here[0])
    ensures |s| == i + |here| + |more| && (|more| > 0 ==> s[i + |here|] == more[0])
  {
    assert |s| - i == |here| + |more|;
    assert s[i + |here|..] == s[i..][|here|..];
    assert |here| > 0 ==> s[i] == s[i..][0];
    assert |more| > 0 ==> s[i + |here|] == s[i + |here|..][0];
  }

  lemma Regrouped(a: string, b: string, c: string, d: string)
    ensures Cat(a + (b + c), d) == Cat(a, Cat(b, Cat(c, d)))
    ensures |a| == 0 ==> Cat(a, b) == b
  {
  }
}
