/**
 `cp_spacevec` and `cp_unspacevec` of `lib/confparse.cc`: splitting at unquoted spaces and
 joining with single spaces.
 */
module SpaceVec {
  import opened Scan
  import opened Uncomment
  import opened Quote

  // The items up to a space, a comment or the end.
  function WordLength(s: string): (n: nat)
    ensures |s| > 0 && !IsBlank(s) ==> 1 <= n
    decreases |s|
  {
    if |s| == 0 || IsBlank(s) then 0
    else ItemLength(s) + WordLength(Drop(s, ItemLength(s)))
  }

  function Words(s: string): seq<string>
    decreases |s|
  {
    var t := Drop(s, SpaceLength(s));
    if |t| == 0 then []
    else
      SpaceEnds(s);
      [Substring(t, 0, WordLength(t))] + Words(Drop(t, WordLength(t)))
  }

  lemma {:induction false} SpaceEnds(s: string)
    ensures !IsBlank(Drop(s, SpaceLength(s)))
    decreases |s|
  {
    hide CommentLength, BlankLength;
    if IsBlank(s) {
      DropDrop(s, BlankLength(s), SpaceLength(Drop(s, BlankLength(s))));
      SpaceEnds(Drop(s, BlankLength(s)));
    } else {
      assert Drop(s, 0) == s;
    }
  }

  function Unwords(v: seq<string>): string
    requires |v| > 0
    decreases |v|
  {
    if |v| == 1 then v[0] else v[0] + " " + Unwords(v[1..])
  }

  lemma JoinedBy(v: seq<string>)
    requires 1 <= |v| <= 3
    ensures |v| == 1 ==> Unwords(v) == v[0]
    ensures |v| == 2 ==> Unwords(v) == v[0] + [' '] + v[1]
    ensures |v| == 3 ==> Unwords(v) == v[0] + [' '] + (v[1] + [' '] + v[2])
  {
  }

  // A word that is read back as it is in front of a space.
  ghost predicate Settled(a: string) {
    |a| > 0 && forall w: string :: |w| == 0 || w[0] == ' ' ==>
      WordLength(a + w) == |a| && !IsBlank(a + w)
  }

  lemma WordsOfWord(a: string, w: string)
    requires Settled(a) && (|w| == 0 || w[0] == ' ')
    ensures Words(a + w) == [a] + Words(w)
  {
    hide WordLength, IsBlank, BlankLength;
    var x := a + w;
    assert WordLength(x) == |a| && !IsBlank(x);
    assert SpaceLength(x) == 0 && Drop(x, 0) == x;
    assert Substring(x, 0, |a|) == a && Drop(x, |a|) == w;
  }

  lemma WordsOfSpace(s: string)
    ensures Words(" " + s) == Words(s)
  {
    hide CommentLength, WordLength;
    var x := " " + s;
    assert x[0] == ' ' && IsBlank(x) && BlankLength(x) == 1 && Drop(x, 1) == s;
    assert SpaceLength(x) == 1 + SpaceLength(s);
    DropDrop(x, 1, SpaceLength(s));
  }

  lemma {:induction false} SplitUnwords(v: seq<string>)
    requires |v| > 0 && forall k :: 0 <= k < |v| - 1 ==> Settled(v[k])
    ensures Words(Unwords(v)) == v[..|v| - 1] + Words(v[|v| - 1])
    decreases |v|
  {
    hide Settled, Words;
    if |v| > 1 {
      var rest := " " + Unwords(v[1..]);
      assert Unwords(v) == v[0] + rest && rest[0] == ' ';
      WordsOfWord(v[0], rest);
      WordsOfSpace(Unwords(v[1..]));
      SplitUnwords(v[1..]);
      assert v[1..][..|v[1..]| - 1] == v[1..|v| - 1];
      assert [v[0]] + v[1..|v| - 1] == v[..|v| - 1];
    }
  }

  // ----- Splitting inverts joining over quoting ---------------------------------------

  lemma QuotedSettled(s: string, allowNewlines: bool)
    requires IsBytes(s)
    ensures Settled(QuotedText(s, allowNewlines))
  {
    hide ItemLength, QuotedText, IsBlank;
    var q := QuotedText(s, allowNewlines);
    QuotedItem(s, allowNewlines, "");
    assert q + "" == q;
    forall w: string | |w| == 0 || w[0] == ' '
      ensures WordLength(q + w) == |q| && !IsBlank(q + w)
    {
      QuotedItem(s, allowNewlines, w);
      assert Drop(q + w, |q|) == w;
      BlankWord(w);
    }
  }

  lemma BlankWord(w: string)
    requires |w| == 0 || w[0] == ' '
    ensures WordLength(w) == 0
  {
  }

  // Any nonempty list of strings, quoted and joined, is split into the same quoted
  // strings, and unquoting them gives the list back.
  lemma WordsOfQuoted(v: seq<string>, allowNewlines: bool)
    requires |v| > 0 && forall k :: 0 <= k < |v| ==> IsBytes(v[k])
    ensures Words(Unwords(QuoteAll(v, allowNewlines))) == QuoteAll(v, allowNewlines)
    ensures forall k :: 0 <= k < |v| ==> UnquoteText(QuoteAll(v, allowNewlines)[k]) == v[k]
  {
    hide Settled, QuotedText, UnquoteText, Words;
    var qs := QuoteAll(v, allowNewlines);
    forall k | 0 <= k < |v| ensures Settled(qs[k]) && UnquoteText(qs[k]) == v[k] {
      QuotedSettled(v[k], allowNewlines);
      UnquoteQuote(v[k], allowNewlines);
    }
    SplitUnwords(qs);
    var a := qs[|v| - 1];
    WordsOfWord(a, "");
    assert a + "" == a;
    WordsOfNothing();
    assert qs[..|v| - 1] + [a] == qs;
  }

  lemma WordsOfNothing()
    ensures Words("") == []
  {
  }

  // ----- Word lists are canonical -----------------------------------------------------

  lemma {:induction false} WordLocal(s: string, w: string)
    requires |s| > 0 && !IsBlank(s) && WordLength(s) < |s| && (|w| == 0 || w[0] == ' ')
    ensures var x := s[..WordLength(s)] + w; WordLength(x) == WordLength(s) && !IsBlank(x)
    decreases |s|
  {
    hide ItemLength, IsBlank;
    var m, n := ItemLength(s), WordLength(s);
    var s' := s[m..];
    assert Drop(s, m) == s';
    var rest := s'[..n - m] + w;
    var x := s[..n] + w;
    assert x == s[..m] + rest;
    SpaceIsBlank(w);
    ItemAgain(s, rest);
    assert Drop(x, m) == rest;
    if n == m {
      assert rest == w;
      BlankWord(w);
    } else {
      WordLocal(s', w);
    }
  }

  lemma SpaceIsBlank(w: string)
    requires |w| == 0 || w[0] == ' '
    ensures |w| > 0 ==> IsBlank(w)
  {
  }

  // Every word but the last is settled; the last one is its own only word, or is empty
  // because it overran the string.
  lemma {:induction false} WordsShape(s: string)
    ensures var v := Words(s);
            |v| > 0 ==> (forall k :: 0 <= k < |v| - 1 ==> Settled(v[k]))
                        && Words(v[|v| - 1]) == (if |v[|v| - 1]| == 0 then [] else [v[|v| - 1]])
    decreases |s|
  {
    hide IsBlank, WordLength, SpaceLength, Settled;
    var t := Drop(s, SpaceLength(s));
    SpaceEnds(s);
    if |t| > 0 {
      var n := WordLength(t);
      var a, s' := Substring(t, 0, n), Drop(t, n);
      var v, v' := Words(s), Words(s');
      assert v == [a] + v';
      WordsShape(s');
      if n < |t| {
        SettledWord(t);
        if |v'| == 0 {
          WordsOfWord(a, "");
          assert a + "" == a;
          WordsOfNothing();
        } else {
          assert v[|v| - 1] == v'[|v'| - 1];
          forall k | 0 <= k < |v| - 1 ensures Settled(v[k]) {
            assert k > 0 ==> v[k] == v'[k - 1];
          }
        }
      } else {
        LastWord(t, s');
      }
    }
  }

  lemma SettledWord(t: string)
    requires |t| > 0 && !IsBlank(t) && WordLength(t) < |t|
    ensures Settled(Substring(t, 0, WordLength(t)))
  {
    hide IsBlank;
    var a := Substring(t, 0, WordLength(t));
    forall w: string | |w| == 0 || w[0] == ' '
      ensures WordLength(a + w) == |a| && !IsBlank(a + w)
    {
      WordLocal(t, w);
    }
  }

  lemma LastWord(t: string, rest: string)
    requires |t| > 0 && !IsBlank(t) && WordLength(t) >= |t| && |rest| == 0
    ensures Words(rest) == []
    ensures var a := Substring(t, 0, WordLength(t));
            Words(a) == if |a| == 0 then [] else [a]
  {
    hide IsBlank, WordLength, Words;
    var a := Substring(t, 0, WordLength(t));
    NoWords(rest);
    NoWords(a);
    if |a| > 0 {
      assert a == t && Substring(t, 0, |t|) == t;
      WordsStep(t);
      NoWords(Drop(t, |t|));
    }
  }

  lemma WordsStep(t: string)
    requires |t| > 0 && !IsBlank(t)
    ensures Words(t) == [Substring(t, 0, WordLength(t))] + Words(Drop(t, WordLength(t)))
  {
    hide IsBlank, WordLength;
    assert SpaceLength(t) == 0 && Drop(t, 0) == t;
  }

  lemma WordsSkip(s: string)
    ensures Words(s) == Words(Drop(s, SpaceLength(s)))
  {
    hide IsBlank, WordLength, SpaceLength;
    var t := Drop(s, SpaceLength(s));
    SpaceEnds(s);
    if |t| > 0 {
      WordsStep(t);
    } else {
      NoWords(t);
    }
  }

  lemma NoWords(s: string)
    ensures |s| == 0 ==> Words(s) == []
  {
    hide WordLength;
  }

  lemma {:induction false} OverrunsBehindSpace(s: string)
    ensures Overruns(s, false) == Overruns(Drop(s, SpaceLength(s)), false)
    decreases |s|
  {
    hide CommentLength, BlankLength, ItemLength;
    if IsBlank(s) {
      OverrunsBehindSpace(Drop(s, BlankLength(s)));
      DropDrop(s, BlankLength(s), SpaceLength(Drop(s, BlankLength(s))));
    } else {
      assert Drop(s, 0) == s;
    }
  }

  // An escape overruns the string in this word, or in a later one.
  lemma {:induction false} OverrunsInWord(t: string)
    ensures Overruns(t, false) <==> (WordLength(t) > |t| || Overruns(Drop(t, WordLength(t)), false))
    decreases |t|
  {
    hide IsBlank, BlankLength;
    if |t| == 0 || IsBlank(t) {
      assert Drop(t, 0) == t;
    } else {
      var n := ItemLength(t);
      var rest := Drop(t, n);
      OverrunsInWord(rest);
      DropDrop(t, n, WordLength(rest));
      if n > |t| {
        OverrunsNothing(Drop(t, WordLength(t)));
      }
    }
  }

  lemma OverrunsNothing(s: string)
    requires |s| == 0
    ensures !Overruns(s, false)
  {
  }

  // The last word is empty exactly when an escape overruns the string.
  lemma {:induction false} LastWordOverruns(s: string)
    ensures |Words(s)| > 0 ==> (|Words(s)[|Words(s)| - 1]| == 0 <==> Overruns(s, false))
    ensures |Words(s)| == 0 ==> !Overruns(s, false)
    decreases |s|
  {
    hide IsBlank, WordLength, SpaceLength, Overruns;
    var t := Drop(s, SpaceLength(s));
    SpaceEnds(s);
    OverrunsBehindSpace(s);
    OverrunsNothing(s[..0]);
    if |t| > 0 {
      var n := WordLength(t);
      var rest := Drop(t, n);
      LastWordOverruns(rest);
      OverrunsInWord(t);
      NoWords(rest);
      if n > |t| {
        OverrunsNothing(rest);
      }
    } else {
      OverrunsNothing(t);
    }
  }

  // There are no words exactly when there are only spaces and comments.
  lemma WordsWhenItem(s: string)
    ensures |Words(s)| == 0 <==> NoItem(s, false)
  {
    hide WordLength, IsBlank, SpaceLength, NoItem;
    SpaceEnds(s);
    ItemBehindSpace(s);
  }

  lemma {:induction false} ItemBehindSpace(s: string)
    ensures NoItem(s, false) <==> |Drop(s, SpaceLength(s))| == 0
    decreases |s|
  {
    hide CommentLength, BlankLength;
    if IsBlank(s) {
      ItemBehindSpace(Drop(s, BlankLength(s)));
      DropDrop(s, BlankLength(s), SpaceLength(Drop(s, BlankLength(s))));
    } else {
      assert Drop(s, 0) == s;
    }
  }

  // Splitting, joining and splitting again changes nothing, except when an escape overruns the
  // string and leaves an empty word.
  lemma WordsCanonical(s: string)
    requires !NoItem(s, false)
    ensures |Words(s)| > 0
    ensures Words(Unwords(Words(s))) == Words(s) <==> !Overruns(s, false)
  {
    hide Words, Unwords, Settled, Overruns, NoItem;
    WordsWhenItem(s);
    WordsShape(s);
    LastWordOverruns(s);
    var v := Words(s);
    SplitUnwords(v);
    var init, last := v[..|v| - 1], v[|v| - 1];
    assert v == init + [last];
    assert |init + []| == |init| < |v|;
  }

  // For one: an escape with a comment in it that nothing closes is an empty word, which is
  // not read back.
  lemma WordsNotCanonical(s: string)
    requires s == ['\\', '<', '/', '*']
    ensures Words(s) == [[]] && Words(Unwords(Words(s))) == []
  {
    hide Words;
    assert IsCommentStart(s[2..]) && BlockComment(s[2..], 2) == 4;
    assert AngleEnd(s, 2) == AngleEnd(s, 6) == 6;
    WordsStep(s);
    NoWords(Drop(s, WordLength(s)));
    NoWords(s[..0]);
  }

  // ----- The code -------------------------------------------------------------------

  method SkipSpaceVecItem(s: string) returns (p: nat)
    ensures p == WordLength(s)
  {
    hide ItemLength, CommentLength;
    p := 0;
    assert Drop(s, 0) == s;
    while p < |s|
      invariant WordLength(s) == p + WordLength(Drop(s, p))
      decreases |s| - p
    {
      assert Drop(s, p) == s[p..];
      if IsCommentStart(s[p..]) || IsSpace(s[p]) {
        return;
      }
      var n := SkipItem(s[p..]);
      DropDrop(s, p, n);
      p := p + n;
    }
  }

  lemma DropLength(s: string, n: nat)
    ensures Drop(s, n) == if n <= |s| then s[n..] else []
  {
  }

  lemma SubstringDrop(s: string, i: nat, n: nat)
    requires i <= |s|
    ensures Substring(s, i, i + n) == Substring(Drop(s, i), 0, n)
  {
  }

  method CpSpaceVec(str: string) returns (conf: seq<string>)
    ensures conf == Words(str)
  {
    hide WordLength, SpaceLength, IsBlank, Words, Substring, Drop;
    conf := [];
    if |str| == 0 {
      NoWords(str);
      return;
    }
    var s: nat := 0;
    DropLength(str, 0);
    assert Drop(str, 0) == str && conf + Words(str) == Words(str);
    while true
      invariant conf + Words(Drop(str, s)) == Words(str)
      decreases |str| - s
    {
      ghost var rest := Drop(str, s);
      DropLength(str, s);
      SpaceEnds(rest);
      WordsSkip(rest);
      var n := SkipCommentSpace(Drop(str, s));
      DropDrop(str, s, n);
      s := s + n;
      if s >= |str| {
        DropLength(str, s);
        NoWords(Drop(str, s));
        break;
      }
      DropLength(str, s);
      WordsStep(Drop(str, s));
      var t := SkipSpaceVecItem(str[s..]);
      SubstringDrop(str, s, t);
      DropDrop(str, s, t);
      ghost var word, words := Substring(str, s, s + t), Words(Drop(str, s + t));
      assert conf + ([word] + words) == conf + [word] + words;
      conf := conf + [Substring(str, s, s + t)];
      s := s + t;
    }
  }

  method CpUnspaceVec(conf: seq<string>) returns (r: string)
    requires |conf| > 0
    ensures r == Unwords(conf)
  {
    var sa := "";
    var begin := 0;
    while begin < |conf|
      invariant 0 <= begin <= |conf|
      invariant begin < |conf| ==> sa + Unwords(conf[begin..]) == Unwords(conf)
      invariant begin == |conf| ==> sa == Unwords(conf) + " "
    {
      assert conf[begin..][1..] == conf[begin + 1..];
      sa := sa + conf[begin] + " ";
      begin := begin + 1;
    }
    r := sa[..|sa| - 1];
  }
}
