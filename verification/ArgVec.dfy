/**
 `cp_argvec` and `cp_unargvec` of `lib/confparse.cc`: splitting at unquoted commas and
 joining with ", ".
 */
module ArgVec {
  import opened Scan
  import opened Uncomment
  import opened Quote

  function Args(s: string): seq<string>
    decreases |s|
  {
    if |s| == 0 then []
    else if Stop(s, true) < |s| then
      [PartialText(s, true)] + Args(s[Stop(s, true) + 1..])
    else LastArg(s)
  }

  // The final argument is ignored when it is empty.
  function LastArg(s: string): seq<string> {
    if |PartialText(s, true)| == 0 then [] else [PartialText(s, true)]
  }

  function Join(v: seq<string>): string
    requires |v| > 0
    decreases |v|
  {
    if |v| == 1 then v[0] else v[0] + ", " + Join(v[1..])
  }

  function Unargs(v: seq<string>): string {
    if |v| == 0 then "" else Join(v)
  }

  lemma JoinedBy(v: seq<string>)
    requires |v| <= 3
    ensures |v| == 0 ==> |Unargs(v)| == 0
    ensures |v| == 1 ==> Unargs(v) == v[0]
    ensures |v| == 2 ==> Unargs(v) == v[0] + [',', ' '] + v[1]
    ensures |v| == 3 ==> Unargs(v) == v[0] + [',', ' '] + (v[1] + [',', ' '] + v[2])
  {
    assert ", " == [',', ' '];
    if |v| == 2 {
      assert Join(v) == v[0] + ", " + Join(v[1..]) && v[1..] == [v[1]];
    } else if |v| == 3 {
      assert v[1..] == [v[1], v[2]] && v[1..][1..] == [v[2]];
      assert Join(v[1..]) == v[1] + ", " + Join(v[1..][1..]);
      assert Join(v) == v[0] + ", " + Join(v[1..]);
    }
  }

  // An argument that is read back as it is in front of any comma.
  ghost predicate Settled(a: string) {
    forall w: string :: |w| > 0 && w[0] == ',' ==>
      PartialText(a + w, true) == a && Stop(a + w, true) == |a|
  }

  // A list whose joined form is cut at the commas that joined it, and at no others.
  ghost predicate Cuts(v: seq<string>) {
    |v| > 0 && (forall k :: 0 <= k < |v| - 1 ==> Settled(v[k]))
    && Stop(v[|v| - 1], true) == |v[|v| - 1]|
  }

  lemma ArgsSpace(s: string)
    ensures Args(" " + s) == Args(s)
  {
    hide Copied, Stop, ItemLength, IsCommentStart;
    var x := " " + s;
    assert x[1..] == s && Drop(x, 1) == s && x[0] == ' ';
    assert IsBlank(x) && BlankLength(x) == 1;
    CopiedBlank(x, true);
    StopEmpty(s);
    if Stop(s, true) < |s| {
      assert x[Stop(x, true) + 1..] == s[Stop(s, true) + 1..];
    }
  }

  lemma StopEmpty(s: string)
    ensures |s| == 0 ==> Stop(s, true) == 0 && PartialText(s, true) == s
  {
    hide ItemLength;
  }

  lemma ArgsCut(a: string, rest: string)
    requires Settled(a)
    ensures Args(a + (", " + rest)) == [a] + Args(rest)
  {
    hide PartialText, Stop;
    var w := ", " + rest;
    var x := a + w;
    assert w[0] == ',' && PartialText(x, true) == a && Stop(x, true) == |a|;
    assert x[|a| + 1..] == " " + rest;
    ArgsSpace(rest);
  }

  // Splitting a joined list gives the list back, up to what a second reading makes of its
  // last element.
  lemma {:induction false} SplitJoin(v: seq<string>)
    requires Cuts(v)
    ensures Args(Join(v)) == v[..|v| - 1] + LastArg(v[|v| - 1])
    decreases |v|
  {
    hide PartialText, Stop, Settled, LastArg;
    if |v| == 1 {
      StopEmpty(v[0]);
      LastOfEmpty(v[0]);
    } else {
      assert v[0] + ", " + Join(v[1..]) == v[0] + (", " + Join(v[1..]));
      ArgsCut(v[0], Join(v[1..]));
      SplitJoin(v[1..]);
      assert v[1..][..|v[1..]| - 1] == v[1..|v| - 1];
      assert [v[0]] + v[1..|v| - 1] == v[..|v| - 1];
    }
  }

  lemma LastOfEmpty(a: string)
    ensures |a| == 0 ==> LastArg(a) == []
  {
    hide PartialText;
    StopEmpty(a);
  }

  // ----- Splitting inverts joining over quoting ---------------------------------------

  lemma QuotedSettled(s: string, allowNewlines: bool)
    requires IsBytes(s)
    ensures var q := QuotedText(s, allowNewlines);
            Settled(q) && Stop(q, true) == |q| && LastArg(q) == [q]
  {
    hide Copied, Stop;
    var q := QuotedText(s, allowNewlines);
    forall w: string | |w| > 0 && w[0] == ','
      ensures PartialText(q + w, true) == q && Stop(q + w, true) == |q|
    {
      QuotedCopied(s, allowNewlines, true, w);
    }
    QuotedCopied(s, allowNewlines, true, "");
    assert q + "" == q;
  }

  // Any list of strings, quoted and joined, is split into the same quoted strings, and
  // unquoting them gives the list back.
  lemma ArgsOfQuoted(v: seq<string>, allowNewlines: bool)
    requires forall k :: 0 <= k < |v| ==> IsBytes(v[k])
    ensures Args(Unargs(QuoteAll(v, allowNewlines))) == QuoteAll(v, allowNewlines)
    ensures forall k :: 0 <= k < |v| ==> UnquoteText(QuoteAll(v, allowNewlines)[k]) == v[k]
  {
    hide Settled, PartialText, Stop, QuotedText, UnquoteText, LastArg;
    var qs := QuoteAll(v, allowNewlines);
    forall k | 0 <= k < |v|
      ensures Settled(qs[k]) && Stop(qs[k], true) == |qs[k]| && LastArg(qs[k]) == [qs[k]]
      ensures UnquoteText(qs[k]) == v[k]
    {
      QuotedSettled(v[k], allowNewlines);
      UnquoteQuote(v[k], allowNewlines);
    }
    if |v| > 0 {
      SplitJoin(qs);
      assert qs[..|v| - 1] + [qs[|v| - 1]] == qs;
    }
  }

  // ----- Argument lists are canonical -------------------------------------------------

  // The last argument appended is one that overruns the string.
  predicate LastOverruns(s: string)
    decreases |s|
  {
    |s| > 0
    && if Stop(s, true) < |s| then
         |Args(s[Stop(s, true) + 1..])| > 0 && LastOverruns(s[Stop(s, true) + 1..])
       else Overruns(s, true)
  }

  // What is read back from the last argument.
  function Reread(a: string, overrun: bool): seq<string> {
    if |Kept(a, overrun)| == 0 then [] else [Kept(a, overrun)]
  }

  // What cp_argvec appends: every argument but the last is settled, and the last one is
  // read back as it is unless it overran.
  lemma {:induction false} ArgsShape(s: string)
    ensures |Args(s)| > 0 ==>
      Cuts(Args(s)) && LastArg(Args(s)[|Args(s)| - 1]) == Reread(Args(s)[|Args(s)| - 1], LastOverruns(s))
    decreases |s|
  {
    hide PartialText, Stop, Overruns, Settled, Kept;
    if |s| > 0 {
      RescanText(s, true, "");
      var t := PartialText(s, true);
      assert t + "" == t;
      if Stop(s, true) < |s| {
        var s' := s[Stop(s, true) + 1..];
        SettledArg(s);
        ArgsShape(s');
        var v, v' := Args(s), Args(s');
        assert v == [t] + v';
        if |v'| > 0 {
          assert v[|v| - 1] == v'[|v'| - 1];
          forall k | 0 <= k < |v| - 1 ensures Settled(v[k]) {
            assert k > 0 ==> v[k] == v'[k - 1];
          }
        } else {
          assert LastArg(t) == Reread(t, false);
        }
      } else {
        assert LastArg(t) == Reread(t, Overruns(s, true));
      }
    }
  }

  // Nothing is left that would be appended.
  predicate NoMoreArgs(s: string) {
    |s| == 0
    || (Stop(s, true) >= |s| && (NoItem(s, true) || (Overruns(s, true) && !CommentBehindItem(s, false, true))))
  }

  lemma NoMoreArgsIff(s: string)
    ensures Args(s) == [] <==> NoMoreArgs(s)
  {
    hide PartialText, Stop, Overruns, NoItem, CommentBehindItem;
    NothingCopiedIff(s, true);
  }

  // The argument appended last is empty, having only spaces and comments up to its comma, or
  // it overruns the string with a comment in front that keeps some of it.
  predicate LastIsLost(s: string)
    decreases |s|
  {
    |s| > 0
    && if Stop(s, true) < |s| then
         var rest := s[Stop(s, true) + 1..];
         if NoMoreArgs(rest) then NoItem(s, true) else LastIsLost(rest)
       else Overruns(s, true) && CommentBehindItem(s, false, true)
  }

  lemma {:induction false} LastIsLostIff(s: string)
    ensures LastIsLost(s) <==> |Args(s)| > 0 && (Args(s)[|Args(s)| - 1] == "" || LastOverruns(s))
    decreases |s|
  {
    hide PartialText, Stop, Overruns, NoItem, CommentBehindItem, NoMoreArgs;
    if |s| > 0 {
      NothingCopiedIff(s, true);
      if Stop(s, true) < |s| {
        var rest := s[Stop(s, true) + 1..];
        SettledArg(s);
        NoMoreArgsIff(rest);
        LastIsLostIff(rest);
        assert Args(s) == [PartialText(s, true)] + Args(rest);
      } else if Overruns(s, true) {
        LeftIff(s, true);
        ItemOverruns(s, true);
      }
    }
  }

  // Splitting, joining and splitting again changes nothing, except when the last argument is
  // lost: a final empty argument is ignored, and what overran ends in a space that is not
  // copied again.
  lemma ArgsCanonical(s: string)
    ensures Args(Unargs(Args(s))) == Args(s) <==> !LastIsLost(s)
  {
    hide PartialText, Stop, Overruns, LastOverruns, LastIsLost, Cuts, LastArg;
    ArgsShape(s);
    LastIsLostIff(s);
    var v := Args(s);
    if |v| == 0 {
      assert |Unargs(v)| == 0;
      assert Args(Unargs(v)) == [];
    } else {
      SplitJoin(v);
      var a, overrun := v[|v| - 1], LastOverruns(s);
      assert v == v[..|v| - 1] + [a];
      assert Reread(a, overrun) == [a] <==> a != "" && !overrun;
    }
  }

  // For one: a comma by itself is an empty argument, which joins to nothing.
  lemma ArgsNotCanonical(s: string)
    requires s == [',']
    ensures Args(s) == [[]] && Args(Unargs(Args(s))) == []
  {
    var rest := s[1..];
    assert Stop(s, true) == 0 && |PartialText(s, true)| == 0;
    assert |rest| == 0 && Args(rest) == [];
    assert |Unargs([[]])| == 0;
  }

  lemma SettledArg(s: string)
    requires Stop(s, true) < |s|
    ensures Settled(PartialText(s, true)) && !Overruns(s, true)
  {
    hide PartialText, Stop, Overruns;
    OverrunFacts(s, Start, true);
    var t := PartialText(s, true);
    forall w: string | |w| > 0 && w[0] == ','
      ensures PartialText(t + w, true) == t && Stop(t + w, true) == |t|
    {
      RescanText(s, true, w);
    }
  }

  // ----- The code -------------------------------------------------------------------

  method CpArgVec(str: string) returns (conf: seq<string>)
    ensures conf == Args(str)
  {
    hide Stop, PartialText;
    conf := [];
    var len := |str|;
    if len == 0 {
      return;
    }
    var pos := 0;
    while pos < len
      invariant 0 <= pos
      invariant conf + (if pos <= len then Args(str[pos..]) else []) == Args(str)
      decreases len - pos
    {
      ghost var rest, before := str[pos..], conf;
      var arg, next := PartialUncomment(str, pos, true);
      assert next < len ==> rest[Stop(rest, true) + 1..] == str[next + 1..];
      pos := next;
      if arg != "" || pos < len {
        conf := conf + [arg];
      }
      pos := pos + 1;
      assert conf + (if pos <= len then Args(str[pos..]) else []) == before + Args(rest);
    }
  }

  method CpUnargVec(conf: seq<string>) returns (sa: string)
    ensures sa == Unargs(conf)
  {
    if |conf| == 0 {
      return "";
    } else if |conf| == 1 {
      return conf[0];
    } else {
      sa := conf[0];
      var i := 1;
      while i < |conf|
        invariant 1 <= i <= |conf|
        invariant (if i == |conf| then sa else sa + ", " + Join(conf[i..])) == Join(conf)
      {
        assert conf[i..][1..] == conf[i + 1..];
        sa := sa + ", " + conf[i];
        i := i + 1;
      }
    }
  }
}
