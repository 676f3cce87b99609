/**
 Prefix matching of long options: `lib/clp.c`. Names and arguments are sequences of bytes
 with no NUL among them, and the parser is not in UTF-8 mode.
 */
module Clp {

  // An option and the flags that Clp_SetOptions gives it. The name is what is left of the
  // long name behind "no-".
  datatype Option = Option(id: int, name: string, shortName: int, long: bool, short: bool,
                           positive: bool, negative: bool, preferred: bool)

  // The longest minimum matches of an option, and whether one character could be short.
  datatype Intern = Intern(lmmpos: nat, lmmneg: nat, lmmposShort: bool, lmmnegShort: bool)

  // ----- Names --------------------------------------------------------------------------

  function Common(s: string, t: string): (n: nat)
    ensures n <= |s| && n <= |t| && s[..n] == t[..n]
    ensures n < |s| && n < |t| ==> s[n] != t[n]
    decreases |s|, |t|
  {
    if |s| > 0 && |t| > 0 && s[0] == t[0] then
      var n := Common(s[1..], t[1..]);
      assert s[..n + 1] == [s[0]] + s[1..][..n] && t[..n + 1] == [t[0]] + t[1..][..n];
      n + 1
    else 0
  }

  // The number of bytes it takes to tell s from t, or all of s.
  function MinDifferent(s: string, t: string): (n: nat)
    ensures n <= |s|
  {
    if Common(s, t) == |s| then |s| else Common(s, t) + 1
  }

  function Upto(s: string, n: nat): string {
    if n <= |s| then s[..n] else s
  }

  // strncmp(s, t, n) == 0.
  predicate SameUpto(s: string, t: string, n: nat) {
    Upto(s, n) == Upto(t, n)
  }

  lemma SameUptoCommon(s: string, t: string, n: nat)
    requires n <= |s|
    ensures SameUpto(s, t, n) <==> n <= Common(s, t)
  {
    var k := Common(s, t);
    if n <= k {
      assert s[..n] == s[..k][..n] && t[..n] == t[..k][..n];
    } else if n <= |t| {
      assert s[..n][k] != t[..n][k];
    }
  }

  // ----- Longest minimum matches --------------------------------------------------------

  predicate Side(o: Option, neg: bool) {
    if neg then o.negative else o.positive
  }

  // The combinations that compare_options does not ignore.
  predicate Comparable(a: Option, b: Option) {
    (a.short || a.long) && (b.short || b.long) && a.id != b.id
    && ((a.positive && b.positive) || (a.negative && b.negative))
  }

  // Whether b has a say in the longest minimum match of a.
  predicate Eligible(a: Option, b: Option, neg: bool) {
    a.long && b.long && a.id != b.id && Side(a, neg) && Side(b, neg)
    && !(a.preferred && a.name <= b.name)
  }

  // The longest match that any of the first n options needs, but at least 1. (Two empty names
  // make it 0; they are duplicates, which CLP reports.)
  function LmmUpto(opts: seq<Option>, a: Option, neg: bool, n: nat): (m: nat)
    requires n <= |opts|
    ensures m <= 1 || m <= |a.name|
    ensures |a.name| > 0 ==> m >= 1
    decreases n, a
  {
    if n == 0 then 1
    else
      var m, b := LmmUpto(opts, a, neg, n - 1), opts[n - 1];
      if !Eligible(a, b, neg) then m
      else if |a.name| == 0 && |b.name| == 0 then 0
      else if MinDifferent(a.name, b.name) > m then MinDifferent(a.name, b.name)
      else m
  }

  predicate ClaimsShort(a: Option, b: Option, neg: bool) {
    Comparable(a, b) && a.long && b.short && !a.preferred && Side(a, neg) && Side(b, neg)
    && |a.name| > 0 && a.name[0] as int == b.shortName
  }

  predicate ShortUpto(opts: seq<Option>, a: Option, neg: bool, n: nat)
    requires n <= |opts|
  {
    exists j :: 0 <= j < n && ClaimsShort(a, opts[j], neg)
  }

  function InternUpto(opts: seq<Option>, a: Option, n: nat): Intern
    requires n <= |opts|
  {
    Intern(LmmUpto(opts, a, false, n), LmmUpto(opts, a, true, n),
           ShortUpto(opts, a, false, n), ShortUpto(opts, a, true, n))
  }

  function Interned(opts: seq<Option>, a: Option): Intern {
    InternUpto(opts, a, |opts|)
  }

  function Lmm(t: Intern, neg: bool): nat {
    if neg then t.lmmneg else t.lmmpos
  }

  // What the incremental comparison does to a longest minimum match is to take the maximum.
  lemma UpdateIsMax(opts: seq<Option>, a: Option, neg: bool, n: nat)
    requires n < |opts| && Eligible(a, opts[n], neg)
    ensures var m, t := LmmUpto(opts, a, neg, n), opts[n].name;
            LmmUpto(opts, a, neg, n + 1) == if SameUpto(a.name, t, m) then MinDifferent(a.name, t) else m
  {
    hide SameUpto;
    var m, s, t := LmmUpto(opts, a, neg, n), a.name, opts[n].name;
    if m <= |s| {
      SameUptoCommon(s, t, m);
    } else {
      EmptyName(s, t, m);
    }
  }

  lemma EmptyName(s: string, t: string, m: nat)
    requires |s| == 0 && m == 1
    ensures SameUpto(s, t, m) <==> |t| == 0
  {
  }

  // The longest minimum match is at least what every eligible option needs, and no more than
  // one of them needs.
  lemma {:induction false} LmmIsMaximum(opts: seq<Option>, a: Option, neg: bool, n: nat)
    requires n <= |opts|
    requires |a.name| > 0 || forall j :: 0 <= j < n && Eligible(a, opts[j], neg) ==> opts[j].name != a.name
    ensures var m := LmmUpto(opts, a, neg, n);
            && m >= 1
            && (forall j :: 0 <= j < n && Eligible(a, opts[j], neg) ==> MinDifferent(a.name, opts[j].name) <= m)
            && (m == 1 || exists j ::
                  0 <= j < n && Eligible(a, opts[j], neg) && MinDifferent(a.name, opts[j].name) == m)
    decreases n
  {
    hide Eligible, MinDifferent;
    if n > 0 {
      LmmIsMaximum(opts, a, neg, n - 1);
    }
  }

  lemma {:induction false} LmmOfEmptyName(opts: seq<Option>, a: Option, neg: bool, n: nat)
    requires n <= |opts| && |a.name| == 0
    ensures LmmUpto(opts, a, neg, n)
         == if exists j :: 0 <= j < n && Eligible(a, opts[j], neg) && |opts[j].name| == 0 then 0 else 1
    decreases n
  {
    hide Eligible;
    if n > 0 {
      LmmOfEmptyName(opts, a, neg, n - 1);
    }
  }

  // ----- Matching an argument -----------------------------------------------------------

  // The positions in the name and in the argument where argcmp stops comparing.
  function Compare(ref: string, arg: string, r: nat, a: nat, fewerDashes: bool): (p: (nat, nat))
    requires r <= |ref| && a <= |arg|
    ensures r <= p.0 <= |ref| && a <= p.1 <= |arg|
    decreases |ref| - r
  {
    if r < |ref| && a < |arg| && arg[a] != '=' && ref[r] == arg[a] then Compare(ref, arg, r + 1, a + 1, fewerDashes)
    else if fewerDashes && r + 1 < |ref| && ref[r] == '-' && a < |arg| && ref[r + 1] == arg[a] then
      Compare(ref, arg, r + 1, a, fewerDashes)
    else (r, a)
  }

  function Argcmp(ref: string, arg: string, minMatch: nat, fewerDashes: bool): int {
    var (r, a) := Compare(ref, arg, 0, 0, fewerDashes);
    if a < |arg| && arg[a] != '=' then 0 else if r < minMatch then -1 else a
  }

  // The argument up to an equals sign.
  function Key(arg: string): (k: string)
    ensures |k| <= |arg| && k == arg[..|k|] && '=' !in k && (|k| == |arg| || arg[|k|] == '=')
    decreases |arg|
  {
    if |arg| == 0 || arg[0] == '=' then []
    else
      var k := Key(arg[1..]);
      assert arg[..|k| + 1] == [arg[0]] + arg[1..][..|k|];
      [arg[0]] + k
  }

  // An equals sign ends what is compared with a name.
  lemma {:induction false} KeyIs(key: string, value: string)
    requires forall k :: 0 <= k < |key| ==> key[k] != '='
    ensures Key(key) == key && Key(key + ['='] + value) == key
    decreases |key|
  {
    if |key| > 0 {
      KeyIs(key[1..], value);
      assert (key + ['='] + value)[1..] == key[1..] + ['='] + value;
      assert key == [key[0]] + key[1..];
    }
  }

  lemma {:induction false} CompareKey(ref: string, arg: string, n: nat)
    requires n <= |ref| && n <= |Key(arg)| && ref[..n] == arg[..n]
    ensures var p := Compare(ref, arg, n, n, false);
            p.0 == p.1 <= |Key(arg)| && ref[..p.0] == arg[..p.0]
            && (p.0 == |Key(arg)| || p.0 == |ref| || ref[p.0] != arg[p.0])
    decreases |ref| - n
  {
    var k := |Key(arg)|;
    if n < |ref| && n < |arg| && arg[n] != '=' && ref[n] == arg[n] {
      assert n < k;
      assert ref[..n + 1] == arg[..n + 1];
      CompareKey(ref, arg, n + 1);
    } else if n < k {
      assert Key(arg)[n] in Key(arg);
      assert arg[n] == Key(arg)[n] != '=';
    }
  }

  lemma NotPrefix(k: string, ref: string, p: nat)
    requires p < |k| && p <= |ref| && (p == |ref| || ref[p] != k[p])
    ensures !(k <= ref)
  {
  }

  // Without fewer dashes, an argument matches the names that its key is a prefix of.
  lemma ArgcmpMatches(ref: string, arg: string, minMatch: nat)
    ensures Argcmp(ref, arg, minMatch, false)
         == if !(Key(arg) <= ref) then 0 else if |Key(arg)| < minMatch then -1 else |Key(arg)|
  {
    hide Key, Compare;
    CompareKey(ref, arg, 0);
    var k, p := |Key(arg)|, Compare(ref, arg, 0, 0, false).0;
    if p == k {
      assert ref[..k] == arg[..k] == Key(arg);
    } else {
      NotPrefix(Key(arg), ref, p);
      assert arg[p] == Key(arg)[p] && Key(arg)[p] in Key(arg);
    }
  }

  // The key is the start of a name with dashes left out.
  predicate Abbreviates(key: string, ref: string)
    decreases |ref|, key
  {
    |key| == 0
    || (|ref| > 0 && ref[0] == key[0] && Abbreviates(key[1..], ref[1..]))
    || (|ref| > 0 && ref[0] == '-' && Abbreviates(key, ref[1..]))
  }

  // The key from a on is the name from r up to n, where a dash in front of any other
  // character may be left out: of a run of dashes, that is at most one.
  predicate StandsFrom(key: string, a: nat, ref: string, r: nat, n: nat)
    requires a <= |key| && r <= n <= |ref|
    decreases n - r
  {
    if r == n then a == |key|
    else
      || (a < |key| && ref[r] == key[a] && StandsFrom(key, a + 1, ref, r + 1, n))
      || (a < |key| && r + 1 < n && ref[r] == '-' && ref[r + 1] == key[a] && key[a] != '-'
          && StandsFrom(key, a + 1, ref, r + 2, n))
  }

  // The key stands for the first n characters of the name.
  predicate Stands(key: string, ref: string, n: nat) {
    n <= |ref| && StandsFrom(key, 0, ref, 0, n)
  }

  // Where the name is left: an equals sign in it lets one more dash be passed over.
  function Reach(ref: string, arg: string, n: nat): nat {
    if n + 1 < |ref| && ref[n] == '-' && ref[n + 1] == '=' && |Key(arg)| < |arg| then n + 1 else n
  }

  // Comparing without going back finds what the key stands for, if anything.
  lemma {:induction false} CompareStands(ref: string, arg: string, r: nat, a: nat) returns (n: nat)
    requires r <= |ref| && a <= |Key(arg)|
    ensures r <= n <= |ref| && Compare(ref, arg, r, a, true).1 <= |Key(arg)|
    ensures Compare(ref, arg, r, a, true).1 == |Key(arg)| ==>
      StandsFrom(Key(arg), a, ref, r, n) && Compare(ref, arg, r, a, true).0 == Reach(ref, arg, n)
    decreases |ref| - r
  {
    hide Key;
    var k := Key(arg);
    n := r;
    if a < |k| {
      assert k[a] == arg[a] && k[a] in k;
      if r < |ref| && ref[r] == k[a] {
        n := CompareStands(ref, arg, r + 1, a + 1);
      } else if r + 1 < |ref| && ref[r] == '-' && ref[r + 1] == k[a] {
        n := CompareStands(ref, arg, r + 2, a + 1);
      }
    }
  }

  lemma {:induction false} StandsCompare(ref: string, arg: string, r: nat, a: nat, n: nat)
    requires a <= |Key(arg)| && r <= n <= |ref| && StandsFrom(Key(arg), a, ref, r, n)
    ensures Compare(ref, arg, r, a, true) == (Reach(ref, arg, n), |Key(arg)|)
    decreases n - r
  {
    hide Key;
    var k := Key(arg);
    if r < n {
      assert k[a] == arg[a] && k[a] in k;
      StandsCompare(ref, arg, if ref[r] == k[a] then r + 1 else r + 2, a + 1, n);
    }
  }

  // With fewer dashes, an argument matches a name exactly when its key stands for a prefix of
  // it, and there is one such prefix: its length is what counts.
  lemma ArgcmpStands(ref: string, arg: string, minMatch: nat)
    ensures |Key(arg)| > 0 ==>
      (Argcmp(ref, arg, minMatch, true) != 0 <==> exists n :: Stands(Key(arg), ref, n))
    ensures forall n :: Stands(Key(arg), ref, n) ==>
      Argcmp(ref, arg, minMatch, true) == if Reach(ref, arg, n) < minMatch then -1 else |Key(arg)|
  {
    hide Key, Compare, StandsFrom;
    var m := CompareStands(ref, arg, 0, 0);
    var p, k := Compare(ref, arg, 0, 0, true).1, |Key(arg)|;
    if p < k {
      assert Key(arg)[p] == arg[p] && Key(arg)[p] in Key(arg);
    } else {
      assert Stands(Key(arg), ref, m);
    }
    forall n | Stands(Key(arg), ref, n)
      ensures p == k && Compare(ref, arg, 0, 0, true).0 == Reach(ref, arg, n)
    {
      StandsCompare(ref, arg, 0, 0, n);
    }
  }

  lemma {:induction false} StandsAbbreviates(key: string, a: nat, ref: string, r: nat, n: nat)
    requires a <= |key| && r <= n <= |ref| && StandsFrom(key, a, ref, r, n)
    ensures Abbreviates(key[a..], ref[r..])
    decreases n - r
  {
    if r < n {
      assert ref[r..][1..] == ref[r + 1..] && key[a..][1..] == key[a + 1..];
      if ref[r] == key[a] {
        StandsAbbreviates(key, a + 1, ref, r + 1, n);
      } else {
        assert ref[r + 1..][1..] == ref[r + 2..];
        StandsAbbreviates(key, a + 1, ref, r + 2, n);
      }
    }
  }

  // Two dashes in front of another character, before any equals sign.
  predicate InnerDoubleDash(ref: string) {
    exists i :: 0 <= i < |ref| - 2 && ref[i] == '-' && ref[i + 1] == '-' && ref[i + 2] != '-'
      && '=' !in ref[..i + 3]
  }

  lemma {:induction false} FewerKeyDashes(key: string, ref: string)
    requires |key| > 0 && key[0] == '-' && Abbreviates(key, ref)
    ensures Abbreviates(key[1..], ref)
    decreases |ref|
  {
    if |ref| > 0 && ref[0] == '-' && !Abbreviates(key[1..], ref[1..]) {
      FewerKeyDashes(key, ref[1..]);
    }
  }

  // A run of dashes that is left out ends at the next character of the key.
  lemma {:induction false} RunEnds(key: string, ref: string, r: nat)
    requires |key| > 0 && r < |ref| && ref[r] == '-' != key[0] && key[0] != '=' && '=' !in ref[..r]
    requires Abbreviates(key, ref[r..]) && !InnerDoubleDash(ref)
    ensures r + 1 < |ref| && ref[r + 1] == key[0] && Abbreviates(key[1..], ref[r + 2..])
    decreases |ref| - r
  {
    assert ref[r..][1..] == ref[r + 1..] && Abbreviates(key, ref[r + 1..]);
    if r + 1 < |ref| {
      assert ref[r + 1..][1..] == ref[r + 2..] && ref[..r + 1] == ref[..r] + [ref[r]];
      if ref[r + 1] == '-' {
        RunEnds(key, ref, r + 1);
      }
    }
  }

  lemma {:induction false} CompareAbbreviation(ref: string, arg: string, r: nat, a: nat)
    requires r <= |ref| && a <= |Key(arg)| && '=' !in ref[..r] && !InnerDoubleDash(ref)
    requires Abbreviates(Key(arg)[a..], ref[r..])
    ensures Compare(ref, arg, r, a, true).1 == |Key(arg)|
    decreases |ref| - r
  {
    hide Key, InnerDoubleDash;
    var k := Key(arg);
    var n := CompareStands(ref, arg, r, a);
    if a < |k| {
      var key := k[a..];
      assert k[a] == arg[a] && k[a] in k && key[1..] == k[a + 1..];
      assert ref[r..][1..] == ref[r + 1..] && ref[..r + 1] == ref[..r] + [ref[r]];
      if ref[r] == k[a] {
        if k[a] == '-' && !Abbreviates(key[1..], ref[r + 1..]) {
          FewerKeyDashes(key, ref[r + 1..]);
        }
        CompareAbbreviation(ref, arg, r + 1, a + 1);
      } else {
        RunEnds(key, ref, r);
        assert ref[..r + 2] == ref[..r] + [ref[r], ref[r + 1]];
        CompareAbbreviation(ref, arg, r + 2, a + 1);
      }
    }
  }

  // With fewer dashes, an argument matches only names that it is an abbreviation of, and all
  // of those that have no two dashes in front of another character.
  lemma ArgcmpAbbreviates(ref: string, arg: string, minMatch: nat)
    ensures Argcmp(ref, arg, minMatch, true) != 0 && |Key(arg)| > 0 ==> Abbreviates(Key(arg), ref)
    ensures !InnerDoubleDash(ref) && |Key(arg)| > 0 ==>
      (Argcmp(ref, arg, minMatch, true) != 0 <==> Abbreviates(Key(arg), ref))
    ensures Argcmp(ref, arg, minMatch, true) > 0 ==> Argcmp(ref, arg, minMatch, true) == |Key(arg)|
  {
    hide Key, Compare, Abbreviates, StandsFrom, InnerDoubleDash;
    var n := CompareStands(ref, arg, 0, 0);
    assert ref[0..] == ref && Key(arg)[0..] == Key(arg);
    var p, k := Compare(ref, arg, 0, 0, true).1, |Key(arg)|;
    if p < k {
      assert Key(arg)[p] == arg[p] && Key(arg)[p] in Key(arg);
    } else {
      StandsAbbreviates(Key(arg), 0, ref, 0, n);
    }
    if !InnerDoubleDash(ref) && Abbreviates(Key(arg), ref) {
      CompareAbbreviation(ref, arg, 0, 0);
    }
  }

  // The argument may have fewer dashes than the name, as promised, for exactly the names
  // without such a pair of dashes: for the others, some abbreviation is refused.
  lemma AbbreviationsMatchIff(ref: string, minMatch: nat)
    ensures (forall arg :: |Key(arg)| > 0 && Abbreviates(Key(arg), ref) ==> Argcmp(ref, arg, minMatch, true) != 0)
       <==> !InnerDoubleDash(ref)
  {
    hide Key, Argcmp, Abbreviates;
    if InnerDoubleDash(ref) {
      var i :| 0 <= i < |ref| - 2 && ref[i] == '-' && ref[i + 1] == '-' && ref[i + 2] != '-'
               && '=' !in ref[..i + 3];
      var arg := ref[..i] + [ref[i + 2]];
      InnerRefused(ref, i, arg, minMatch);
      assert |Key(arg)| > 0 && Abbreviates(Key(arg), ref) && Argcmp(ref, arg, minMatch, true) == 0;
    } else {
      forall arg | |Key(arg)| > 0 && Abbreviates(Key(arg), ref) ensures Argcmp(ref, arg, minMatch, true) != 0 {
        ArgcmpAbbreviates(ref, arg, minMatch);
      }
    }
  }

  // The name up to the two dashes, and what is behind them.
  lemma InnerRefused(ref: string, i: nat, arg: string, minMatch: nat)
    requires i + 2 < |ref| && ref[i] == '-' && ref[i + 1] == '-' && ref[i + 2] != '-' && '=' !in ref[..i + 3]
    requires arg == ref[..i] + [ref[i + 2]]
    ensures Key(arg) == arg && Abbreviates(arg, ref) && Argcmp(ref, arg, minMatch, true) == 0
  {
    hide Key, Abbreviates, Compare;
    forall j | 0 <= j < |arg| ensures arg[j] != '=' {
      assert arg[j] == ref[..i + 3][if j < i then j else i + 2];
    }
    KeyIsAll(arg);
    InnerAbbreviates(ref, i, arg, 0);
    CompareSame(ref, arg, 0, i);
    assert arg[i] == ref[i + 2];
    CompareStops(ref, arg, i);
  }

  lemma KeyIsAll(arg: string)
    requires forall j :: 0 <= j < |arg| ==> arg[j] != '='
    ensures Key(arg) == arg
  {
    hide Key;
    assert |Key(arg)| == |arg|;
    assert arg[..|arg|] == arg;
  }

  lemma {:induction false} InnerAbbreviates(ref: string, i: nat, arg: string, j: nat)
    requires j <= i && i + 2 < |ref| && ref[i] == '-' && ref[i + 1] == '-' && arg == ref[..i] + [ref[i + 2]]
    ensures Abbreviates(arg[j..], ref[j..]) && (j == 0 ==> Abbreviates(arg, ref))
    decreases i - j
  {
    assert ref[j..][1..] == ref[j + 1..] && arg[j..][1..] == arg[j + 1..];
    if j < i {
      InnerAbbreviates(ref, i, arg, j + 1);
    } else {
      assert |arg[j + 1..]| == 0;
      assert ref[j + 1..][1..] == ref[j + 2..] && ref[j + 2..][1..] == ref[j + 3..];
      assert Abbreviates(arg[j..], ref[j + 2..]);
      assert Abbreviates(arg[j..], ref[j + 1..]);
    }
    assert arg[0..] == arg && ref[0..] == ref;
  }

  lemma {:induction false} CompareSame(ref: string, arg: string, j: nat, i: nat)
    requires j <= i <= |ref| && i <= |arg| && forall k :: j <= k < i ==> ref[k] == arg[k] != '='
    ensures Compare(ref, arg, j, j, true) == Compare(ref, arg, i, i, true)
    decreases i - j
  {
    if j < i {
      CompareSame(ref, arg, j + 1, i);
    }
  }

  lemma CompareStops(ref: string, arg: string, i: nat)
    requires i + 1 < |ref| && i < |arg| && ref[i] == '-' && ref[i + 1] == '-' != arg[i]
    ensures Compare(ref, arg, i, i, true) == (i, i)
  {
  }

  // For one: of the two dashes of a--b, one can be left out and both cannot.
  lemma OneOfTwoDashes(ref: string, none: string, one: string)
    requires ref == ['a', '-', '-', 'b'] && none == ['a', 'b'] && one == ['a', '-', 'b']
    ensures Abbreviates(Key(none), ref) && Argcmp(ref, none, 1, true) == 0
    ensures Abbreviates(Key(one), ref) && Argcmp(ref, one, 1, true) == 3
  {
    hide Argcmp, Abbreviates;
    InnerRefused(ref, 1, none, 1);
    KeyIsAll(one);
    assert StandsFrom(one, 3, ref, 4, 4) && StandsFrom(one, 2, ref, 2, 4);
    assert StandsFrom(one, 1, ref, 1, 4);
    assert Stands(one, ref, 4);
    ArgcmpStands(ref, one, 1);
    ArgcmpAbbreviates(ref, one, 1);
  }

  datatype Context = Context(negated: bool, couldBeShort: bool)

  // The match that option i asks for.
  function Needed(t: Intern, ctx: Context): nat {
    var lmm, short := Lmm(t, ctx.negated), if ctx.negated then t.lmmnegShort else t.lmmposShort;
    if ctx.couldBeShort && short && lmm <= 1 then 2 else lmm
  }

  predicate Considered(a: Option, ctx: Context) {
    a.long && Side(a, ctx.negated)
  }

  // How an option compares with an argument in one pass; 0 also when it is not considered.
  function Outcome(a: Option, t: Intern, arg: string, ctx: Context, fewerDashes: bool): int {
    if !Considered(a, ctx) then 0 else Argcmp(a.name, arg, Needed(t, ctx), fewerDashes)
  }

  function ResultOf(opts: seq<Option>, a: Option, arg: string, ctx: Context, fewerDashes: bool): int {
    Outcome(a, Interned(opts, a), arg, ctx, fewerDashes)
  }

  predicate Matches(opts: seq<Option>, a: Option, arg: string, ctx: Context, fewerDashes: bool) {
    ResultOf(opts, a, arg, ctx, fewerDashes) > 0
  }

  // An argument could mean either option. Options of the same id are aliases, and an option
  // that is only set and one that is only negated do not meet.
  predicate Meet(a: Option, b: Option) {
    a.id != b.id && a.long && b.long && ((a.positive && b.positive) || (a.negative && b.negative))
  }

  // Options that an argument could mean have different names.
  ghost predicate Distinct(opts: seq<Option>) {
    forall a, b :: a in opts && b in opts && Meet(a, b) ==> a.name != b.name
  }

  lemma NoEqualNames(opts: seq<Option>, a: Option, neg: bool)
    requires Distinct(opts) && a in opts
    ensures forall j :: 0 <= j < |opts| && Eligible(a, opts[j], neg) ==> opts[j].name != a.name
  {
    forall j | 0 <= j < |opts| && Eligible(a, opts[j], neg) ensures opts[j].name != a.name {
      assert opts[j] in opts;
    }
  }

  // A prefix of s is long enough to tell it from t if it is no prefix of t, or all of s.
  lemma LongEnough(k: string, s: string, t: string)
    requires k <= s
    ensures MinDifferent(s, t) <= |k| <==> (k == s || !(k <= t))
  {
    SameUptoCommon(s, t, |k|);
    assert SameUpto(s, t, |k|) <==> k <= t;
  }

  // A prefix of a name tells the option from all that it could be taken for, being the whole
  // name or no prefix of theirs; one character is not enough when it could be a short option.
  ghost predicate Tells(opts: seq<Option>, a: Option, prefix: string, ctx: Context) {
    && (prefix == a.name || forall b :: b in opts && Eligible(a, b, ctx.negated) ==> !(prefix <= b.name))
    && (ctx.couldBeShort && ShortUpto(opts, a, ctx.negated, |opts|) ==> |prefix| > 1)
  }

  lemma NeededIff(opts: seq<Option>, a: Option, prefix: string, ctx: Context)
    requires |prefix| > 0 && prefix <= a.name
    ensures Needed(Interned(opts, a), ctx) <= |prefix| <==> Tells(opts, a, prefix, ctx)
  {
    hide MinDifferent, LmmUpto, ShortUpto, Eligible;
    var neg := ctx.negated;
    LmmIsMaximum(opts, a, neg, |opts|);
    forall j | 0 <= j < |opts| {
      LongEnough(prefix, a.name, opts[j].name);
    }
    LmmAtMostKey(opts, a, neg, |prefix|);
    MembersAre(opts, a, neg, prefix);
  }

  // An option is matched by the prefixes of its name that tell it from the others.
  lemma MatchesIff(opts: seq<Option>, a: Option, arg: string, ctx: Context)
    requires Considered(a, ctx)
    ensures Matches(opts, a, arg, ctx, false)
       <==> |Key(arg)| > 0 && Key(arg) <= a.name && Tells(opts, a, Key(arg), ctx)
  {
    hide Argcmp, Key, Needed, Interned, Tells;
    ArgcmpMatches(a.name, arg, Needed(Interned(opts, a), ctx));
    if |Key(arg)| > 0 && Key(arg) <= a.name {
      NeededIff(opts, a, Key(arg), ctx);
    }
  }

  // What makes an option that is set or negated the one that an argument can only mean.
  ghost predicate OnlyOne(opts: seq<Option>, a: Option, k: string, negated: bool) {
    k == a.name || forall b ::
      b in opts && b.id != a.id && b.long && (if negated then b.negative else b.positive) && k <= b.name
      ==> a.preferred && a.name <= b.name
  }

  // Whether another option has the character for its short name.
  ghost predicate ShortNamed(opts: seq<Option>, a: Option, c: char, negated: bool) {
    exists b ::
      b in opts && b.id != a.id && b.short && (if negated then b.negative else b.positive) && b.shortName == c as int
  }

  // In terms of the options themselves: an argument matches a name that it is a prefix of, up
  // to an equals sign, if it is the whole name or a prefix of no other; a preferred option does
  // not mind names that go on behind its own. Where an argument could be a short option, one
  // character that names one is not enough.
  lemma MatchesPlainly(opts: seq<Option>, a: Option, arg: string, ctx: Context)
    requires a.long && (if ctx.negated then a.negative else a.positive)
    ensures Matches(opts, a, arg, ctx, false) <==>
      var k := Key(arg);
      && |k| > 0 && k <= a.name && OnlyOne(opts, a, k, ctx.negated)
      && !(ctx.couldBeShort && |k| == 1 && !a.preferred && ShortNamed(opts, a, k[0], ctx.negated))
  {
    hide Key, Matches, LmmUpto;
    MatchesIff(opts, a, arg, ctx);
    var k := Key(arg);
    if |k| > 0 && k <= a.name {
      assert k[0] == a.name[0];
      ShortIff(opts, a, ctx.negated);
    }
  }

  lemma ShortIff(opts: seq<Option>, a: Option, neg: bool)
    requires a.long && |a.name| > 0 && (if neg then a.negative else a.positive)
    ensures ShortUpto(opts, a, neg, |opts|) <==> !a.preferred && ShortNamed(opts, a, a.name[0], neg)
  {
    if ShortUpto(opts, a, neg, |opts|) {
      var j :| 0 <= j < |opts| && ClaimsShort(a, opts[j], neg);
      assert opts[j] in opts;
    }
    if !a.preferred && ShortNamed(opts, a, a.name[0], neg) {
      var b :| b in opts && b.id != a.id && b.short && (if neg then b.negative else b.positive)
               && b.shortName == a.name[0] as int;
      var j :| 0 <= j < |opts| && opts[j] == b;
      assert ClaimsShort(a, opts[j], neg);
    }
  }

  // The prefix of its name that an argument stands for tells the option from the others.
  ghost predicate MeansWithDashes(opts: seq<Option>, a: Option, arg: string, ctx: Context) {
    Considered(a, ctx) && |Key(arg)| > 0 && exists n: nat ::
      Stands(Key(arg), a.name, n) && Tells(opts, a, a.name[..Reach(a.name, arg, n)], ctx)
  }

  // With fewer dashes, an option is matched when what the argument stands for does that.
  lemma MatchesFewerIff(opts: seq<Option>, a: Option, arg: string, ctx: Context)
    ensures Matches(opts, a, arg, ctx, true) <==> MeansWithDashes(opts, a, arg, ctx)
  {
    hide Argcmp, Key, Needed, Interned, Tells, StandsFrom;
    var s, needed := a.name, Needed(Interned(opts, a), ctx);
    ArgcmpStands(s, arg, needed);
    ArgcmpAbbreviates(s, arg, needed);
    forall n: nat | |Key(arg)| > 0 && Stands(Key(arg), s, n)
      ensures needed <= Reach(s, arg, n) <==> Tells(opts, a, s[..Reach(s, arg, n)], ctx)
    {
      StandsMore(Key(arg), s, n);
      NeededIff(opts, a, s[..Reach(s, arg, n)], ctx);
    }
  }

  lemma StandsMore(key: string, ref: string, n: nat)
    requires |key| > 0 && Stands(key, ref, n)
    ensures n > 0
  {
  }

  lemma LmmAtMostKey(opts: seq<Option>, a: Option, neg: bool, k: nat)
    requires |a.name| > 0
    ensures LmmUpto(opts, a, neg, |opts|) <= k
       <==> k >= 1 && forall j :: 0 <= j < |opts| && Eligible(a, opts[j], neg) ==>
              MinDifferent(a.name, opts[j].name) <= k
  {
    hide MinDifferent, LmmUpto, Eligible;
    LmmIsMaximum(opts, a, neg, |opts|);
  }

  lemma MembersAre(opts: seq<Option>, a: Option, neg: bool, key: string)
    ensures (forall b :: b in opts && Eligible(a, b, neg) ==> !(key <= b.name))
       <==> forall j :: 0 <= j < |opts| && Eligible(a, opts[j], neg) ==> !(key <= opts[j].name)
  {
    assert forall j :: 0 <= j < |opts| ==> opts[j] in opts;
  }

  // With different names, argcmp is never asked for an empty match.
  lemma NeededIsPositive(opts: seq<Option>, a: Option, ctx: Context)
    requires Distinct(opts) && a in opts
    ensures Needed(Interned(opts, a), ctx) > 0
  {
    hide LmmUpto, ShortUpto;
    NoEqualNames(opts, a, ctx.negated);
    LmmIsMaximum(opts, a, ctx.negated, |opts|);
  }

  lemma MatchesShareName(opts: seq<Option>, a: Option, b: Option, arg: string, ctx: Context)
    requires Distinct(opts) && a in opts && b in opts && a.id != b.id
    requires Matches(opts, a, arg, ctx, false) && Matches(opts, b, arg, ctx, false)
    ensures a.name <= b.name
  {
    hide Argcmp, Key, MinDifferent, LmmUpto, ShortUpto;
    var neg := ctx.negated;
    ArgcmpMatches(a.name, arg, Needed(Interned(opts, a), ctx));
    ArgcmpMatches(b.name, arg, Needed(Interned(opts, b), ctx));
    NoEqualNames(opts, a, neg);
    LmmIsMaximum(opts, a, neg, |opts|);
    if Eligible(a, b, neg) {
      LongEnough(Key(arg), a.name, b.name);
    }
  }

  // No argument matches options of two ids in the first pass, preferred matches or not.
  lemma MatchIsUnique(opts: seq<Option>, a: Option, b: Option, arg: string, ctx: Context)
    requires Distinct(opts) && a in opts && b in opts
    requires Matches(opts, a, arg, ctx, false) && Matches(opts, b, arg, ctx, false)
    ensures a.id == b.id
  {
    hide ResultOf;
    MatchesAre(opts, a, arg, ctx);
    MatchesAre(opts, b, arg, ctx);
    if a.id != b.id {
      MatchesShareName(opts, a, b, arg, ctx);
      MatchesShareName(opts, b, a, arg, ctx);
      assert false;
    }
  }

  lemma MatchesAre(opts: seq<Option>, a: Option, arg: string, ctx: Context)
    requires Matches(opts, a, arg, ctx, false)
    ensures a.long && Side(a, ctx.negated)
  {
  }

  // ----- Order --------------------------------------------------------------------------

  // The same options in another order.
  ghost predicate Reordered(opts: seq<Option>, other: seq<Option>) {
    multiset(opts) == multiset(other)
  }

  lemma SameMembers(opts: seq<Option>, other: seq<Option>)
    requires Reordered(opts, other)
    ensures forall b :: b in opts <==> b in other
  {
    forall b ensures b in opts <==> b in other {
      assert b in multiset(opts) <==> b in multiset(other);
    }
  }

  lemma LmmAtMost(opts: seq<Option>, other: seq<Option>, a: Option, neg: bool)
    requires forall b :: b in opts ==> b in other
    requires |a.name| > 0
    ensures LmmUpto(opts, a, neg, |opts|) <= LmmUpto(other, a, neg, |other|)
  {
    hide LmmUpto, Eligible, MinDifferent;
    assert forall j :: 0 <= j < |opts| ==> opts[j] in opts;
    LmmIsMaximum(opts, a, neg, |opts|);
    LmmIsMaximum(other, a, neg, |other|);
  }

  lemma LmmAtMostOne(opts: seq<Option>, other: seq<Option>, a: Option, neg: bool)
    requires forall b :: b in opts ==> b in other
    requires |a.name| == 0
    ensures LmmUpto(other, a, neg, |other|) <= LmmUpto(opts, a, neg, |opts|)
  {
    hide LmmUpto, Eligible;
    assert forall j :: 0 <= j < |opts| ==> opts[j] in opts;
    LmmOfEmptyName(opts, a, neg, |opts|);
    LmmOfEmptyName(other, a, neg, |other|);
  }

  lemma ShortAtMost(opts: seq<Option>, other: seq<Option>, a: Option, neg: bool)
    requires forall b :: b in opts ==> b in other
    ensures ShortUpto(opts, a, neg, |opts|) ==> ShortUpto(other, a, neg, |other|)
  {
    hide ClaimsShort;
    assert forall j :: 0 <= j < |opts| ==> opts[j] in opts;
  }

  lemma LmmReordered(opts: seq<Option>, other: seq<Option>, a: Option, neg: bool)
    requires forall b :: b in opts <==> b in other
    ensures LmmUpto(other, a, neg, |other|) == LmmUpto(opts, a, neg, |opts|)
    ensures ShortUpto(other, a, neg, |other|) == ShortUpto(opts, a, neg, |opts|)
  {
    hide LmmUpto, ShortUpto;
    if |a.name| > 0 {
      LmmAtMost(opts, other, a, neg);
      LmmAtMost(other, opts, a, neg);
    } else {
      LmmAtMostOne(opts, other, a, neg);
      LmmAtMostOne(other, opts, a, neg);
    }
    ShortAtMost(opts, other, a, neg);
    ShortAtMost(other, opts, a, neg);
  }

  // Where the options stand makes no difference to how each compares with an argument.
  lemma OutcomeReordered(opts: seq<Option>, other: seq<Option>, a: Option, arg: string, ctx: Context,
                         fewerDashes: bool)
    requires Reordered(opts, other)
    ensures Interned(other, a) == Interned(opts, a)
    ensures ResultOf(other, a, arg, ctx, fewerDashes) == ResultOf(opts, a, arg, ctx, fewerDashes)
  {
    hide LmmUpto, ShortUpto, Argcmp, Reordered;
    SameMembers(opts, other);
    LmmReordered(opts, other, a, false);
    LmmReordered(opts, other, a, true);
  }

  // ----- What find_prefix_opt finds -------------------------------------------------------

  // No option matches the argument in the first pass, not even partly.
  ghost predicate NothingFirst(opts: seq<Option>, arg: string, ctx: Context) {
    forall a :: a in opts ==> ResultOf(opts, a, arg, ctx, false) == 0
  }

  // r is the first option that matches in a pass, or -1.
  ghost predicate FirstMatch(opts: seq<Option>, arg: string, ctx: Context, fewerDashes: bool, r: int) {
    -1 <= r < |opts| && (r >= 0 ==> ResultOf(opts, opts[r], arg, ctx, fewerDashes) > 0)
    && forall i :: 0 <= i < (if r < 0 then |opts| else r) ==> ResultOf(opts, opts[i], arg, ctx, fewerDashes) <= 0
  }

  ghost predicate Finds(opts: seq<Option>, arg: string, ctx: Context, r: int) {
    FirstMatch(opts, arg, ctx, NothingFirst(opts, arg, ctx), r)
  }

  // In the second pass, no options of two ids match.
  ghost predicate Unambiguous(opts: seq<Option>, arg: string, ctx: Context) {
    forall a, b | a in opts && b in opts ::
      ResultOf(opts, a, arg, ctx, true) > 0 && ResultOf(opts, b, arg, ctx, true) > 0 ==> a.id == b.id
  }

  // Both find nothing, or options of the same id.
  ghost predicate SameAnswer(opts: seq<Option>, r: int, other: seq<Option>, r': int)
    requires r < |opts| && r' < |other|
  {
    if r < 0 || r' < 0 then r < 0 && r' < 0 else opts[r].id == other[r'].id
  }

  ghost predicate OrderIndependent(opts: seq<Option>, arg: string, ctx: Context) {
    forall other, r, r' | Reordered(opts, other) && Finds(opts, arg, ctx, r) && Finds(other, arg, ctx, r') ::
      SameAnswer(opts, r, other, r')
  }

  lemma NothingFirstReordered(opts: seq<Option>, other: seq<Option>, arg: string, ctx: Context)
    requires Reordered(opts, other)
    ensures NothingFirst(other, arg, ctx) <==> NothingFirst(opts, arg, ctx)
  {
    hide ResultOf, Reordered;
    SameMembers(opts, other);
    forall a ensures ResultOf(other, a, arg, ctx, false) == ResultOf(opts, a, arg, ctx, false) {
      OutcomeReordered(opts, other, a, arg, ctx, false);
    }
  }

  // What one order finds, any other order finds something for.
  lemma FindsSomething(opts: seq<Option>, other: seq<Option>, arg: string, ctx: Context, r: int, r': int)
    requires Reordered(opts, other) && Finds(opts, arg, ctx, r) && Finds(other, arg, ctx, r') && r >= 0
    ensures r' >= 0 && NothingFirst(other, arg, ctx) == NothingFirst(opts, arg, ctx)
    ensures other[r'] in opts && ResultOf(opts, other[r'], arg, ctx, NothingFirst(opts, arg, ctx)) > 0
  {
    hide ResultOf, NothingFirst, Reordered;
    var pass := NothingFirst(opts, arg, ctx);
    NothingFirstReordered(opts, other, arg, ctx);
    SameMembers(opts, other);
    assert opts[r] in other;
    var k :| 0 <= k < |other| && other[k] == opts[r];
    OutcomeReordered(opts, other, opts[r], arg, ctx, pass);
    assert ResultOf(other, other[k], arg, ctx, pass) > 0;
    OutcomeReordered(opts, other, other[r'], arg, ctx, pass);
  }

  // When the options that match in the pass that decides have one id, order does not matter.
  lemma UnambiguousIsIndependent(opts: seq<Option>, other: seq<Option>, arg: string, ctx: Context, r: int, r': int)
    requires Distinct(opts) && Reordered(opts, other)
    requires Finds(opts, arg, ctx, r) && Finds(other, arg, ctx, r')
    requires NothingFirst(opts, arg, ctx) ==> Unambiguous(opts, arg, ctx)
    ensures SameAnswer(opts, r, other, r')
  {
    hide ResultOf, NothingFirst, Reordered, Distinct;
    if r >= 0 {
      FindsSomething(opts, other, arg, ctx, r, r');
      assert opts[r] in opts;
      if !NothingFirst(opts, arg, ctx) {
        MatchIsUnique(opts, opts[r], other[r'], arg, ctx);
      }
    } else if r' >= 0 {
      ReorderedBack(opts, other);
      FindsSomething(other, opts, arg, ctx, r', r);
      assert false;
    }
  }

  lemma ReorderedBack(opts: seq<Option>, other: seq<Option>)
    requires Reordered(opts, other)
    ensures Reordered(other, opts)
  {
  }

  // Option j moved to the front.
  function Fronted(opts: seq<Option>, j: nat): (r: seq<Option>)
    requires j < |opts|
    ensures |r| == |opts| && r[0] == opts[j]
  {
    [opts[j]] + opts[..j] + opts[j + 1..]
  }

  lemma FrontedReordered(opts: seq<Option>, j: nat)
    requires j < |opts|
    ensures Reordered(opts, Fronted(opts, j))
  {
    assert opts == opts[..j] + [opts[j]] + opts[j + 1..];
  }

  lemma {:induction false} FirstMatchExists(opts: seq<Option>, arg: string, ctx: Context, fewerDashes: bool, n: nat)
    returns (r: int)
    requires n <= |opts|
    requires forall i :: 0 <= i < n ==> ResultOf(opts, opts[i], arg, ctx, fewerDashes) <= 0
    ensures FirstMatch(opts, arg, ctx, fewerDashes, r)
    decreases |opts| - n
  {
    hide ResultOf;
    if n == |opts| {
      r := -1;
    } else if ResultOf(opts, opts[n], arg, ctx, fewerDashes) > 0 {
      r := n;
    } else {
      r := FirstMatchExists(opts, arg, ctx, fewerDashes, n + 1);
    }
  }

  // Of two options that match in the second pass, the first one wins: the other one does when
  // it is moved to the front.
  lemma AmbiguousDependsOnOrder(opts: seq<Option>, arg: string, ctx: Context)
    requires NothingFirst(opts, arg, ctx) && !Unambiguous(opts, arg, ctx)
    ensures !OrderIndependent(opts, arg, ctx)
  {
    hide ResultOf, NothingFirst, Reordered, Fronted;
    var r := FirstMatchExists(opts, arg, ctx, true, 0);
    var a, b :| a in opts && b in opts && ResultOf(opts, a, arg, ctx, true) > 0
                && ResultOf(opts, b, arg, ctx, true) > 0 && a.id != b.id;
    var i :| 0 <= i < |opts| && opts[i] == a;
    assert r >= 0;
    var c := if opts[r].id == a.id then b else a;
    var j :| 0 <= j < |opts| && opts[j] == c;
    FrontWins(opts, j, arg, ctx);
    var other := Fronted(opts, j);
    FrontedFirst(opts, j);
    assert Reordered(opts, other) && Finds(opts, arg, ctx, r) && Finds(other, arg, ctx, 0);
    assert !SameAnswer(opts, r, other, 0);
  }

  lemma FrontedFirst(opts: seq<Option>, j: nat)
    requires j < |opts|
    ensures |Fronted(opts, j)| == |opts| && Fronted(opts, j)[0] == opts[j]
  {
  }

  lemma FrontWins(opts: seq<Option>, j: nat, arg: string, ctx: Context)
    requires j < |opts| && NothingFirst(opts, arg, ctx) && ResultOf(opts, opts[j], arg, ctx, true) > 0
    ensures Reordered(opts, Fronted(opts, j)) && Finds(Fronted(opts, j), arg, ctx, 0)
  {
    hide ResultOf, NothingFirst, Reordered, Fronted;
    var other := Fronted(opts, j);
    FrontedReordered(opts, j);
    FrontedFirst(opts, j);
    NothingFirstReordered(opts, other, arg, ctx);
    OutcomeReordered(opts, other, opts[j], arg, ctx, true);
  }

  // What an argument finds is the same, up to aliases, in every order of the options exactly
  // when it matches an option in the first pass, if only partly, or options of at most one id
  // in the second.
  lemma OrderIndependentIff(opts: seq<Option>, arg: string, ctx: Context)
    requires Distinct(opts)
    ensures OrderIndependent(opts, arg, ctx) <==> (!NothingFirst(opts, arg, ctx) || Unambiguous(opts, arg, ctx))
  {
    hide NothingFirst, Unambiguous, Reordered, Distinct, FirstMatch;
    if !NothingFirst(opts, arg, ctx) || Unambiguous(opts, arg, ctx) {
      forall other, r, r' | Reordered(opts, other) && Finds(opts, arg, ctx, r) && Finds(other, arg, ctx, r')
        ensures r < |opts| && r' < |other| && SameAnswer(opts, r, other, r')
      {
        FindsInRange(opts, arg, ctx, r);
        FindsInRange(other, arg, ctx, r');
        UnambiguousIsIndependent(opts, other, arg, ctx, r, r');
      }
    } else {
      AmbiguousDependsOnOrder(opts, arg, ctx);
    }
  }

  // In terms of the names: it is the same in every order exactly when it is a prefix of a name,
  // or stands for prefixes that tell options of at most one id.
  lemma OrderIndependentByName(opts: seq<Option>, arg: string, ctx: Context)
    requires Distinct(opts)
    ensures OrderIndependent(opts, arg, ctx)
       <==> || (exists a :: a in opts && Considered(a, ctx) && Key(arg) <= a.name)
            || (forall a, b | a in opts && b in opts ::
                  MeansWithDashes(opts, a, arg, ctx) && MeansWithDashes(opts, b, arg, ctx) ==> a.id == b.id)
  {
    hide OrderIndependent, Key, Argcmp, Needed, Interned, Distinct, MeansWithDashes;
    OrderIndependentIff(opts, arg, ctx);
    forall a | a in opts
      ensures ResultOf(opts, a, arg, ctx, false) == 0 <==> !(Considered(a, ctx) && Key(arg) <= a.name)
      ensures ResultOf(opts, a, arg, ctx, true) > 0 <==> MeansWithDashes(opts, a, arg, ctx)
    {
      ArgcmpMatches(a.name, arg, Needed(Interned(opts, a), ctx));
      NeededIsPositive(opts, a, ctx);
      MatchesFewerIff(opts, a, arg, ctx);
    }
  }

  lemma FindsInRange(opts: seq<Option>, arg: string, ctx: Context, r: int)
    requires Finds(opts, arg, ctx, r)
    ensures r < |opts|
  {
  }

  // The names a-b and -ab: leaving out dashes, ab matches both, and the first one wins.
  lemma DashesDependOnOrder(a: Option, b: Option, arg: string, ctx: Context)
    requires a == Option(1, ['a', '-', 'b'], 0, true, false, true, false, false)
    requires b == Option(2, ['-', 'a', 'b'], 0, true, false, true, false, false)
    requires arg == ['a', 'b'] && ctx == Context(false, false)
    ensures Distinct([a, b]) && !OrderIndependent([a, b], arg, ctx)
  {
    hide Argcmp, Compare, Interned, OrderIndependent;
    var opts := [a, b];
    assert forall c :: c in opts <==> c == a || c == b;
    DashesNeedOne(opts, a, b);
    DashesNeedOne(opts, b, a);
    DashesOutcome(opts, a, arg, ctx);
    DashesOutcome(opts, b, arg, ctx);
    DashesCompare(a.name, b.name, arg);
    assert !Unambiguous(opts, arg, ctx) by {
      assert a in opts && b in opts;
    }
    AmbiguousDependsOnOrder(opts, arg, ctx);
  }

  lemma DashesCompare(a: string, b: string, arg: string)
    requires a == ['a', '-', 'b'] && b == ['-', 'a', 'b'] && arg == ['a', 'b']
    ensures Argcmp(a, arg, 1, false) == 0 && Argcmp(b, arg, 1, false) == 0
    ensures Argcmp(a, arg, 1, true) == 2 && Argcmp(b, arg, 1, true) == 2
  {
    assert Compare(a, arg, 1, 1, false) == (1, 1);
    assert Compare(a, arg, 2, 1, true) == Compare(a, arg, 3, 2, true) == (3, 2);
    assert Compare(a, arg, 1, 1, true) == (3, 2);
    assert Compare(b, arg, 2, 1, true) == Compare(b, arg, 3, 2, true) == (3, 2);
    assert Compare(b, arg, 1, 0, true) == (3, 2);
  }

  lemma DashesOutcome(opts: seq<Option>, a: Option, arg: string, ctx: Context)
    requires a.long && a.positive && ctx == Context(false, false) && LmmUpto(opts, a, false, |opts|) == 1
    ensures ResultOf(opts, a, arg, ctx, false) == Argcmp(a.name, arg, 1, false)
    ensures ResultOf(opts, a, arg, ctx, true) == Argcmp(a.name, arg, 1, true)
  {
    hide LmmUpto, ShortUpto, Argcmp;
  }

  // A name that starts differently from every other one is told by one character.
  lemma DashesNeedOne(opts: seq<Option>, a: Option, b: Option)
    requires |a.name| > 0 && |b.name| > 0 && a.name[0] != b.name[0]
    requires forall j :: 0 <= j < |opts| ==> opts[j] == a || opts[j] == b
    ensures LmmUpto(opts, a, false, |opts|) == 1
  {
    hide LmmUpto, MinDifferent;
    LmmIsMaximum(opts, a, false, |opts|);
    OneTells(a.name, b.name);
  }

  lemma OneTells(s: string, t: string)
    requires |s| > 0 && |t| > 0 && s[0] != t[0]
    ensures MinDifferent(s, t) == 1
  {
  }

  // ----- The code -----------------------------------------------------------------------

  method ArgcmpCode(ref: string, arg: string, minMatch: nat, fewerDashes: bool) returns (len: int)
    requires minMatch > 0
    ensures len == Argcmp(ref, arg, minMatch, fewerDashes)
  {
    var r: nat, a: nat := 0, 0;
    while true
      invariant r <= |ref| && a <= |arg|
      invariant Compare(ref, arg, r, a, fewerDashes) == Compare(ref, arg, 0, 0, fewerDashes)
      decreases |ref| - r
    {
      while r < |ref| && a < |arg| && arg[a] != '=' && ref[r] == arg[a]
        invariant r <= |ref| && a <= |arg|
        invariant Compare(ref, arg, r, a, fewerDashes) == Compare(ref, arg, 0, 0, fewerDashes)
        decreases |ref| - r
      {
        r, a := r + 1, a + 1;
      }
      if fewerDashes && r + 1 < |ref| && ref[r] == '-' && a < |arg| && ref[r + 1] == arg[a] {
        r := r + 1;
        continue;
      }
      break;
    }
    len := if a < |arg| && arg[a] != '=' then 0 else if r < minMatch then -1 else a;
  }

  method MinDifferentChars(s: string, t: string) returns (n: nat)
    ensures n == MinDifferent(s, t)
  {
    n := 0;
    assert s[0..] == s && t[0..] == t;
    while n < |s| && n < |t| && s[n] == t[n]
      invariant n <= |s| && n <= |t| && Common(s, t) == n + Common(s[n..], t[n..])
    {
      assert s[n..][1..] == s[n + 1..] && t[n..][1..] == t[n + 1..];
      n := n + 1;
    }
    if n < |s| {
      n := n + 1;
    }
  }

  // Takes option j into account for option i.
  method CompareOptions(opts: seq<Option>, i: nat, j: nat, iopt: array<Intern>)
    requires i < |opts| == iopt.Length && j < |opts| && iopt[i] == InternUpto(opts, opts[i], j)
    modifies iopt
    ensures iopt[i] == InternUpto(opts, opts[i], j + 1)
    ensures forall k :: 0 <= k < iopt.Length && k != i ==> iopt[k] == old(iopt[k])
  {
    hide SameUpto, MinDifferent;
    var o1, o2 := opts[i], opts[j];
    InternStep(opts, o1, j);
    if (!o1.short && !o1.long) || (!o2.short && !o2.long)
       || !((o1.positive && o2.positive) || (o1.negative && o2.negative)) || o1.id == o2.id {
      return;
    }
    if o1.long {
      if o2.short && !o1.preferred {
        if |o1.name| > 0 && o1.name[0] as int == o2.shortName {
          if o1.positive && o2.positive {
            iopt[i] := iopt[i].(lmmposShort := true);
          }
          if o1.negative && o2.negative {
            iopt[i] := iopt[i].(lmmnegShort := true);
          }
        }
      }
      if o2.long {
        var least := MinDifferentChars(o1.name, o2.name);
        if o1.positive && o2.positive && SameUpto(o1.name, o2.name, iopt[i].lmmpos)
           && (!o1.preferred || !(o1.name <= o2.name)) {
          iopt[i] := iopt[i].(lmmpos := least);
        }
        if o1.negative && o2.negative && SameUpto(o1.name, o2.name, iopt[i].lmmneg)
           && (!o1.preferred || !(o1.name <= o2.name)) {
          iopt[i] := iopt[i].(lmmneg := least);
        }
      }
    }
  }

  lemma InternStep(opts: seq<Option>, a: Option, j: nat)
    requires j < |opts|
    ensures forall neg ::
      LmmUpto(opts, a, neg, j + 1)
      == var m, t := LmmUpto(opts, a, neg, j), opts[j].name;
         if Eligible(a, opts[j], neg) && SameUpto(a.name, t, m) then MinDifferent(a.name, t) else m
    ensures forall neg ::
      ShortUpto(opts, a, neg, j + 1) == (ShortUpto(opts, a, neg, j) || ClaimsShort(a, opts[j], neg))
  {
    hide SameUpto, MinDifferent, ClaimsShort, Eligible;
    forall neg | Eligible(a, opts[j], neg) {
      UpdateIsMax(opts, a, neg, j);
    }
  }

  method CalculateLmm(opts: seq<Option>, iopt: array<Intern>)
    requires iopt.Length == |opts|
    modifies iopt
    ensures forall i :: 0 <= i < |opts| ==> iopt[i] == Interned(opts, opts[i])
  {
    hide InternUpto;
    var i: nat := 0;
    while i < |opts|
      invariant i <= |opts|
      invariant forall k :: 0 <= k < i ==> iopt[k] == Interned(opts, opts[k])
    {
      iopt[i] := Intern(1, 1, false, false);
      NothingSeen(opts, opts[i]);
      var j: nat := 0;
      while j < |opts|
        invariant j <= |opts| && iopt[i] == InternUpto(opts, opts[i], j)
        invariant forall k :: 0 <= k < i ==> iopt[k] == Interned(opts, opts[k])
      {
        CompareOptions(opts, i, j, iopt);
        j := j + 1;
      }
      i := i + 1;
    }
  }

  lemma NothingSeen(opts: seq<Option>, a: Option)
    ensures InternUpto(opts, a, 0) == Intern(1, 1, false, false)
  {
  }

  const MAX_AMBIGUOUS_VALUES: nat := 4

  // The options below n that match too few characters in a pass.
  function Partial(opts: seq<Option>, arg: string, ctx: Context, fewerDashes: bool, n: nat): seq<nat>
    requires n <= |opts|
  {
    if n == 0 then []
    else
      Partial(opts, arg, ctx, fewerDashes, n - 1)
      + (if ResultOf(opts, opts[n - 1], arg, ctx, fewerDashes) < 0 then [n - 1] else [])
  }

  // These are, in order, the options whose name the argument is a prefix of without matching
  // it.
  lemma {:induction false} PartialIff(opts: seq<Option>, arg: string, ctx: Context, n: nat, i: nat)
    requires n <= |opts|
    ensures Increasing(Partial(opts, arg, ctx, false, n), n)
    ensures i in Partial(opts, arg, ctx, false, n) <==> i < n && IsPartial(opts, opts[i], arg, ctx)
    decreases n
  {
    hide ResultOf, IsPartial, Increasing;
    if n > 0 {
      PartialIff(opts, arg, ctx, n - 1, i);
      ResultPartial(opts, opts[n - 1], arg, ctx);
      IncreasingPush(Partial(opts, arg, ctx, false, n - 1), n - 1, i);
    } else {
      NothingIncreasing();
    }
  }

  predicate Increasing(v: seq<nat>, n: nat) {
    (forall i, j :: 0 <= i < j < |v| ==> v[i] < v[j]) && forall i :: 0 <= i < |v| ==> v[i] < n
  }

  lemma NothingIncreasing()
    ensures Increasing([], 0)
  {
  }

  lemma IncreasingPush(v: seq<nat>, n: nat, i: nat)
    requires Increasing(v, n)
    ensures Increasing(v + [n], n + 1) && Increasing(v + [], n + 1)
    ensures (i in v + [n] <==> i in v || i == n) && (i in v + [] <==> i in v) && (i in v ==> i < n)
  {
    assert v + [] == v;
  }

  predicate IsPartial(opts: seq<Option>, a: Option, arg: string, ctx: Context) {
    Considered(a, ctx) && Key(arg) <= a.name && !Matches(opts, a, arg, ctx, false) && Needed(Interned(opts, a), ctx) > 0
  }

  lemma ResultPartial(opts: seq<Option>, a: Option, arg: string, ctx: Context)
    ensures ResultOf(opts, a, arg, ctx, false) < 0 <==> IsPartial(opts, a, arg, ctx)
  {
    hide Key, Argcmp, Interned, Needed;
    ArgcmpMatches(a.name, arg, Needed(Interned(opts, a), ctx));
  }

  lemma FirstFourAre(values: seq<nat>)
    ensures FirstFour(values) <= values && |FirstFour(values)| == if |values| < 4 then |values| else 4
  {
  }

  // One pass over the options.
  method FindInPass(opts: seq<Option>, iopt: array<Intern>, arg: string, ctx: Context, fewerDashes: bool,
                    ambiguous: nat, values: seq<nat>)
    returns (r: int, newAmbiguous: nat, newValues: seq<nat>)
    requires iopt.Length == |opts| && forall i :: 0 <= i < |opts| ==> iopt[i] == Interned(opts, opts[i])
    requires forall i :: 0 <= i < |opts| && Considered(opts[i], ctx) ==> Needed(Interned(opts, opts[i]), ctx) > 0
    requires |values| == if ambiguous < MAX_AMBIGUOUS_VALUES then ambiguous else MAX_AMBIGUOUS_VALUES
    ensures FirstMatch(opts, arg, ctx, fewerDashes, r)
    ensures var partial := Partial(opts, arg, ctx, fewerDashes, if r < 0 then |opts| else r);
            newAmbiguous == ambiguous + |partial| && newValues == FirstFour(values + partial)
  {
    hide Interned, ResultOf, Outcome, Partial;
    newAmbiguous, newValues := ambiguous, values;
    var i: nat := 0;
    PartialSteps(opts, arg, ctx, fewerDashes, 0, values);
    while i < |opts|
      invariant i <= |opts| && forall k :: 0 <= k < i ==> ResultOf(opts, opts[k], arg, ctx, fewerDashes) <= 0
      invariant newAmbiguous == ambiguous + |Partial(opts, arg, ctx, fewerDashes, i)|
      invariant newValues == FirstFour(values + Partial(opts, arg, ctx, fewerDashes, i))
    {
      PartialSteps(opts, arg, ctx, fewerDashes, i, values);
      var len := CompareArgument(opts[i], iopt[i], arg, ctx, fewerDashes);
      assert len == ResultOf(opts, opts[i], arg, ctx, fewerDashes) by {
        ResultIsOutcome(opts, opts[i], arg, ctx, fewerDashes);
      }
      if len > 0 {
        return i, newAmbiguous, newValues;
      } else if len < 0 {
        if newAmbiguous < MAX_AMBIGUOUS_VALUES {
          newValues := newValues + [i];
        }
        newAmbiguous := newAmbiguous + 1;
      }
      i := i + 1;
    }
    r := -1;
  }

  // How one option, with its matches, compares with an argument.
  method CompareArgument(a: Option, t: Intern, arg: string, ctx: Context, fewerDashes: bool) returns (len: int)
    requires Considered(a, ctx) ==> Needed(t, ctx) > 0
    ensures len == Outcome(a, t, arg, ctx, fewerDashes)
  {
    hide Argcmp;
    var firstCharLen := 1;
    if !a.long || (if ctx.negated then !a.negative else !a.positive) {
      return 0;
    }
    var lmm := if ctx.negated then t.lmmneg else t.lmmpos;
    if ctx.couldBeShort && (if ctx.negated then t.lmmnegShort else t.lmmposShort) {
      lmm := if firstCharLen >= lmm then firstCharLen + 1 else lmm;
    }
    len := ArgcmpCode(a.name, arg, lmm, fewerDashes);
  }

  lemma ResultIsOutcome(opts: seq<Option>, a: Option, arg: string, ctx: Context, fewerDashes: bool)
    ensures ResultOf(opts, a, arg, ctx, fewerDashes) == Outcome(a, Interned(opts, a), arg, ctx, fewerDashes)
  {
  }

  lemma PartialSteps(opts: seq<Option>, arg: string, ctx: Context, fewerDashes: bool, n: nat, values: seq<nat>)
    requires n <= |opts|
    ensures n == 0 ==> Partial(opts, arg, ctx, fewerDashes, n) == [] && values + [] == values
    ensures n < |opts| ==>
      var before, after := Partial(opts, arg, ctx, fewerDashes, n), Partial(opts, arg, ctx, fewerDashes, n + 1);
      if ResultOf(opts, opts[n], arg, ctx, fewerDashes) < 0
      then after == before + [n] && values + after == values + before + [n]
      else after == before
  {
    hide ResultOf;
    if n < |opts| {
      var before := Partial(opts, arg, ctx, fewerDashes, n);
      assert values + (before + [n]) == values + before + [n] && before + [] == before;
    }
  }

  function FirstFour(values: seq<nat>): seq<nat> {
    if |values| <= MAX_AMBIGUOUS_VALUES then values else values[..MAX_AMBIGUOUS_VALUES]
  }

  lemma {:induction false} PartialNone(opts: seq<Option>, arg: string, ctx: Context, n: nat)
    requires n <= |opts|
    requires forall i :: 0 <= i < |opts| ==> ResultOf(opts, opts[i], arg, ctx, false) <= 0
    ensures |Partial(opts, arg, ctx, false, n)| == 0
      <==> forall i :: 0 <= i < n ==> ResultOf(opts, opts[i], arg, ctx, false) == 0
  {
    hide ResultOf;
    if n > 0 {
      PartialNone(opts, arg, ctx, n - 1);
    }
  }

  method FindPrefixOpt(opts: seq<Option>, iopt: array<Intern>, arg: string, ctx: Context,
                       ambiguous: nat, values: seq<nat>)
    returns (r: int, newAmbiguous: nat, newValues: seq<nat>)
    requires iopt.Length == |opts| && forall i :: 0 <= i < |opts| ==> iopt[i] == Interned(opts, opts[i])
    requires forall i :: 0 <= i < |opts| && Considered(opts[i], ctx) ==> Needed(Interned(opts, opts[i]), ctx) > 0
    requires |values| == if ambiguous < MAX_AMBIGUOUS_VALUES then ambiguous else MAX_AMBIGUOUS_VALUES
    ensures Finds(opts, arg, ctx, r)
    ensures var second := NothingFirst(opts, arg, ctx);
            var partial := Partial(opts, arg, ctx, second, if r < 0 then |opts| else r);
            newAmbiguous == ambiguous + |partial| && newValues == FirstFour(values + partial)
  {
    hide ResultOf, Interned;
    r, newAmbiguous, newValues := FindInPass(opts, iopt, arg, ctx, false, ambiguous, values);
    if r >= 0 {
      assert !NothingFirst(opts, arg, ctx);
      return;
    }
    PartialNone(opts, arg, ctx, |opts|);
    if newAmbiguous == ambiguous {
      assert values + [] == values;
      assert NothingFirst(opts, arg, ctx);
      r, newAmbiguous, newValues := FindInPass(opts, iopt, arg, ctx, true, ambiguous, values);
    }
  }
}
