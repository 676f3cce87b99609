/**
 What comments do to the operations of `lib/confparse.cc`: a comment behind a text that is not
 inside quotes, an escape or another comment is as good as one space.
 */
module Comments {
  import opened Scan
  import opened Uncomment
  import opened ArgVec
  import opened SpaceVec

  // A whole comment, in front of the rest of a text.
  ghost predicate IsComment(c: string, rest: string) {
    (exists body, end :: IsLineNote(c, body, end) && IsLineEnd(end, rest)) || exists body :: IsBlockNote(c, body)
  }

  predicate IsLineNote(c: string, body: string, end: string) {
    NoNewline(body) && c == ['/', '/'] + body + end
  }

  predicate IsBlockNote(c: string, body: string) {
    NoStarSlash(body) && c == ['/', '*'] + body + ['*', '/']
  }

  // A comment that is whole in front of any text.
  ghost predicate IsNote(c: string) {
    (exists body, end :: IsLineNote(c, body, end) && (end == ['\n'] || end == ['\r', '\n']))
    || exists body :: IsBlockNote(c, body)
  }

  lemma NoteIsComment(c: string, rest: string)
    requires IsNote(c)
    ensures IsComment(c, rest)
  {
    if body, end :| IsLineNote(c, body, end) && (end == ['\n'] || end == ['\r', '\n']) {
      assert IsLineEnd(end, rest);
    }
  }

  lemma CommentIsBlank(c: string, rest: string)
    requires IsComment(c, rest)
    ensures |c| > 2 && c[0] == '/' && IsBlank(c + rest) && !IsSpace((c + rest)[0])
    ensures BlankLength(c + rest) == |c| && Drop(c + rest, |c|) == rest
  {
    hide CommentLength;
    if body, end :| IsLineNote(c, body, end) && IsLineEnd(end, rest) {
      LineCommentEnds(body, end, rest);
    } else {
      var body :| IsBlockNote(c, body);
      BlockCommentEnds(body, rest);
    }
    assert (c + rest)[0] == c[0] == '/' && (c + rest)[1] == c[1];
  }

  // A text that ends outside of quotes, escapes and comments, and not in a slash that could
  // start one.
  predicate Open(a: string)
    decreases |a|
  {
    |a| == 0
    || (var s := a + " ";
        if IsBlank(s) then BlankLength(s) <= |a| && Open(a[BlankLength(s)..])
        else a != ['/'] && ItemLength(s) <= |a| && Open(a[ItemLength(s)..]))
  }

  // What may follow such a text.
  predicate Opens(t: string) {
    |t| > 0 && (t[0] == ' ' || t[0] == '/')
  }

  lemma {:induction false} LineStays(a: string, t: string, i: nat)
    requires Opens(t) && LineComment(a + " ", i) <= |a|
    ensures LineComment(a + t, i) == LineComment(a + " ", i)
    decreases |a| - i
  {
    var s, x := a + " ", a + t;
    if i < |a| {
      assert s[i] == x[i] == a[i];
      assert i + 1 < |a| ==> s[i + 1] == x[i + 1];
      if s[i] != '\n' && s[i] != '\r' {
        LineStays(a, t, i + 1);
      }
    }
  }

  lemma {:induction false} BlockStays(a: string, t: string, i: nat)
    requires Opens(t) && BlockComment(a + " ", i) <= |a|
    ensures BlockComment(a + t, i) == BlockComment(a + " ", i)
    decreases |a| - i
  {
    var s, x := a + " ", a + t;
    if i + 2 <= |a| {
      assert s[i] == x[i] == a[i] && s[i + 1] == x[i + 1] == a[i + 1];
      if s[i] != '*' || s[i + 1] != '/' {
        BlockStays(a, t, i + 1);
      }
    }
  }

  // The first unit of an open text is the same in front of anything that may follow.
  lemma SameUnit(a: string, t: string)
    requires |a| > 0 && Open(a) && Opens(t)
    ensures var s, x := a + " ", a + t;
            IsBlank(x) == IsBlank(s) && x[0] == s[0]
            && (IsBlank(s) ==> BlankLength(x) == BlankLength(s) <= |a| && Open(a[BlankLength(s)..])
                               && Drop(x, BlankLength(s)) == a[BlankLength(s)..] + t)
            && (!IsBlank(s) ==> ItemLength(x) == ItemLength(s) <= |a| && Open(a[ItemLength(s)..])
                                && Drop(x, ItemLength(s)) == a[ItemLength(s)..] + t
                                && x[..ItemLength(s)] == a[..ItemLength(s)])
  {
    hide IsBlank, BlankLength, ItemLength, Drop;
    var s, x := a + " ", a + t;
    OpenUnit(a);
    if IsBlank(s) {
      SameBlank(a, t);
      TailAfter(a, t, BlankLength(s));
    } else {
      SameItem(a, t);
      TailAfter(a, t, ItemLength(s));
    }
  }

  lemma OpenUnit(a: string)
    requires |a| > 0 && Open(a)
    ensures var s := a + " ";
            if IsBlank(s) then BlankLength(s) <= |a| && Open(a[BlankLength(s)..])
            else a != ['/'] && ItemLength(s) <= |a| && Open(a[ItemLength(s)..])
  {
    hide IsBlank, BlankLength, ItemLength;
  }

  lemma TailAfter(a: string, t: string, n: nat)
    requires n <= |a|
    ensures Drop(a + t, n) == a[n..] + t && (a + t)[..n] == a[..n] && (n < |a| ==> (a + t)[0] == a[0] == (a + " ")[0])
  {
  }

  lemma SameBlank(a: string, t: string)
    requires |a| > 0 && Opens(t) && IsBlank(a + " ") && BlankLength(a + " ") <= |a|
    ensures var s, x := a + " ", a + t; IsBlank(x) && x[0] == s[0] && BlankLength(x) == BlankLength(s)
  {
    hide LineComment, BlockComment;
    var s, x := a + " ", a + t;
    assert s[0] == x[0] == a[0] && (|a| > 1 ==> s[1] == x[1] == a[1]);
    if !IsSpace(a[0]) {
      if s[1] == '/' {
        LineStays(a, t, 2);
      } else {
        BlockStays(a, t, 2);
      }
    }
  }

  lemma SameItem(a: string, t: string)
    requires |a| > 0 && Opens(t) && !IsBlank(a + " ") && a != ['/'] && ItemLength(a + " ") <= |a|
    ensures var s, x := a + " ", a + t; !IsBlank(x) && x[0] == s[0] && ItemLength(x) == ItemLength(s)
  {
    hide ItemLength;
    var s, x := a + " ", a + t;
    assert s[0] == x[0] == a[0] && (|a| > 1 ==> s[1] == x[1] == a[1]);
    assert s[..ItemLength(s)] == a[..ItemLength(s)] == x[..ItemLength(s)];
    ItemLocal(s, x);
  }

  // ----- Arguments ----------------------------------------------------------------------

  // The gap at the end of an open text.
  function EndGap(a: string, gap: Gap): Gap
    requires Open(a)
    decreases |a|
  {
    if |a| == 0 then gap
    else
      var s := a + " ";
      if IsBlank(s) then EndGap(a[BlankLength(s)..], GapAfter(gap, s))
      else EndGap(a[ItemLength(s)..], Spaces(""))
  }

  lemma {:induction false} SameBehind(a: string, u: string, v: string, gap: Gap, comma: bool)
    requires Open(a) && Opens(u) && Opens(v)
    requires Copied(u, EndGap(a, gap), comma) == Copied(v, EndGap(a, gap), comma)
    ensures Copied(a + u, gap, comma) == Copied(a + v, gap, comma)
    decreases |a|
  {
    hide ItemLength, BlankLength, Opens;
    if |a| == 0 {
      assert a + u == u && a + v == v;
    } else {
      var s := a + " ";
      SameUnit(a, u);
      SameUnit(a, v);
      if IsBlank(s) {
        SameGap(gap, s, a + u);
        SameGap(gap, s, a + v);
        SameBehind(a[BlankLength(s)..], u, v, GapAfter(gap, s), comma);
      } else if !(comma && s[0] == ',') {
        DropIs(a + u, ItemLength(s));
        DropIs(a + v, ItemLength(s));
        SameBehind(a[ItemLength(s)..], u, v, Spaces(""), comma);
      }
    }
  }

  lemma DropIs(x: string, n: nat)
    requires n <= |x|
    ensures Drop(x, n) == x[n..]
  {
  }

  lemma SameGap(gap: Gap, s: string, x: string)
    requires IsBlank(s) && IsBlank(x) && s[0] == x[0]
    ensures GapAfter(gap, s) == GapAfter(gap, x)
  {
  }

  // The scan stops at a comma inside the open text, or behind it.
  lemma {:induction false} StopBehind(a: string, u: string, comma: bool) returns (inside: bool, k: nat)
    requires Open(a) && Opens(u)
    ensures inside ==> comma && k < |a| && a[k] == ',' && Open(a[k + 1..])
    ensures inside ==> forall v :: Opens(v) ==> Stop(a + v, comma) == k
    ensures !inside ==> forall v :: Opens(v) ==> Stop(a + v, comma) == |a| + Stop(v, comma)
    decreases |a|
  {
    hide ItemLength, BlankLength, Opens, IsBlank;
    inside, k := false, 0;
    if |a| == 0 {
      forall v | Opens(v) ensures Stop(a + v, comma) == Stop(v, comma) {
        assert a + v == v;
      }
    } else {
      var s := a + " ";
      SameUnit(a, u);
      if !IsBlank(s) && comma && s[0] == ',' {
        inside := true;
        CommaUnit(s, a);
        forall v | Opens(v) ensures Stop(a + v, comma) == 0 {
          SameUnit(a, v);
        }
      } else {
        var n := if IsBlank(s) then BlankLength(s) else ItemLength(s);
        inside, k := StopBehind(a[n..], u, comma);
        forall v | Opens(v) ensures Stop(a + v, comma) == n + Stop(a[n..] + v, comma) {
          SameUnit(a, v);
        }
        if inside {
          assert a[n..][k] == a[n + k] && a[n..][k + 1..] == a[n + k + 1..];
        }
        k := n + k;
      }
    }
  }

  lemma CommaUnit(s: string, a: string)
    requires s == a + " " && |a| > 0 && s[0] == ',' && Open(a)
    ensures a[0] == ',' && Open(a[1..])
  {
    assert !IsBlank(s) && ItemLength(s) == 1;
  }

  // A comment in front of a comma or the end makes no difference to the arguments: it is as
  // good as a space.
  lemma {:induction false} ArgsWithComment(a: string, c: string, w: string)
    requires Open(a) && IsComment(c, w) && (|w| > 0 ==> w[0] == ',')
    ensures Args(a + c + w) == Args(a + " " + w)
    decreases |a|
  {
    hide Open, Opens, IsComment, Copied, Stop, EndGap, Args;
    var u, v := c + w, " " + w;
    Grouped(a, c, w);
    CommentOpens(c, w);
    NothingBehind(c, w, EndGap(a, Start));
    SameBehind(a, u, v, Start, true);
    var inside, k := StopBehind(a, u, true);
    assert Stop(a + u, true) == if inside then k else |a| + |c|;
    assert Stop(a + v, true) == if inside then k else |a| + 1;
    if inside {
      ArgsWithComment(a[k + 1..], c, w);
      Grouped(a[k + 1..], c, w);
      BehindComma(a, u, k);
      BehindComma(a, v, k);
    } else if |w| > 0 {
      assert (a + u)[|a| + |c| + 1..] == w[1..] && (a + v)[|a| + 2..] == w[1..];
    }
    ArgsAlike(a + u, a + v);
  }

  lemma Grouped(a: string, c: string, w: string)
    ensures a + c + w == a + (c + w) && a + " " + w == a + (" " + w)
  {
  }

  lemma BehindComma(a: string, u: string, k: nat)
    requires k < |a|
    ensures (a + u)[k + 1..] == a[k + 1..] + u
  {
  }

  lemma ArgsAlike(x: string, y: string)
    requires |x| > 0 && |y| > 0 && PartialText(x, true) == PartialText(y, true)
    requires Stop(x, true) < |x| <==> Stop(y, true) < |y|
    requires Stop(x, true) < |x| ==> Args(x[Stop(x, true) + 1..]) == Args(y[Stop(y, true) + 1..])
    ensures Args(x) == Args(y)
  {
    hide PartialText, Stop;
  }

  lemma CommentOpens(c: string, w: string)
    requires IsComment(c, w)
    ensures Opens(c + w) && Opens(" " + w) && |c| > 0
  {
    hide IsComment;
    CommentIsBlank(c, w);
  }

  lemma NothingBehind(c: string, w: string, gap: Gap)
    requires IsComment(c, w) && (|w| > 0 ==> w[0] == ',')
    ensures Copied(c + w, gap, true) == Copied(" " + w, gap, true)
    ensures Stop(c + w, true) == |c| && Stop(" " + w, true) == 1
  {
    hide IsComment, BlankLength, ItemLength;
    CommentIsBlank(c, w);
    SpaceIsBlankUnit(w);
  }

  lemma SpaceIsBlankUnit(w: string)
    ensures IsBlank(" " + w) && BlankLength(" " + w) == 1 && Drop(" " + w, 1) == w && IsSpace((" " + w)[0])
  {
  }

  // ----- Text ---------------------------------------------------------------------------

  // Behind a character that is no space, the gap has no spaces yet.
  lemma {:induction false} TightGap(a: string, gap: Gap)
    requires |a| > 0 && Open(a) && !IsSpace(a[|a| - 1])
    ensures var g := EndGap(a, gap); g.Spaces? ==> g == Spaces("")
    decreases |a|
  {
    hide ItemLength, CommentLength;
    var s := a + " ";
    var n := if IsBlank(s) then BlankLength(s) else ItemLength(s);
    assert s[0] == a[0];
    if n < |a| {
      assert a[n..][|a[n..]| - 1] == a[|a| - 1];
      TightGap(a[n..], if IsBlank(s) then GapAfter(gap, s) else Spaces(""));
    }
  }

  // A comment between two items is copied as one space.
  lemma UncommentWithComment(a: string, c: string, w: string)
    requires Open(a) && (|a| > 0 ==> !IsSpace(a[|a| - 1])) && IsComment(c, w)
    requires |w| > 0 ==> !IsBlank(w) && !Overruns(w, false)
    ensures UncommentText(a + c + w) == UncommentText(a + " " + w)
  {
    hide Open, Opens, IsComment, Copied, EndGap, Overruns;
    var u, v, gap := c + w, " " + w, EndGap(a, Start);
    assert a + c + w == a + u && a + " " + w == a + v;
    CommentOpens(c, w);
    if |a| > 0 {
      TightGap(a, Start);
    } else {
      NoGap(a);
    }
    SameSeparator(c, w, gap);
    SameBehind(a, u, v, Start, false);
  }

  lemma NoGap(a: string)
    requires |a| == 0
    ensures Open(a) && EndGap(a, Start) == Start
  {
  }

  lemma SameSeparator(c: string, w: string, gap: Gap)
    requires IsComment(c, w) && (gap.Spaces? ==> gap == Spaces(""))
    requires |w| > 0 ==> !IsBlank(w) && !Overruns(w, false)
    ensures Copied(c + w, gap, false) == Copied(" " + w, gap, false)
  {
    hide IsComment, BlankLength, ItemLength, Overruns;
    CommentIsBlank(c, w);
    SpaceIsBlankUnit(w);
    if |w| > 0 {
      OverrunFacts(w, Closed, false);
      OverrunFacts(w, Spaces(" "), false);
    }
  }

  // ----- Words --------------------------------------------------------------------------

  // A comment between two words, or inside one, splits them like a space.
  lemma {:induction false} WordsWithComment(a: string, c: string, w: string)
    requires Open(a) && IsComment(c, w)
    ensures Words(a + c + w) == Words(a + " " + w)
    decreases |a|
  {
    hide Open, Opens, IsComment, Words, IsBlank, BlankLength, ItemLength, WordLength;
    var u, v := c + w, " " + w;
    Grouped(a, c, w);
    CommentOpens(c, w);
    CommentIsBlank(c, w);
    SpaceIsBlankUnit(w);
    if |a| == 0 {
      assert a + u == u && a + v == v;
      WordsBlank(u);
      WordsBlank(v);
    } else if IsBlank(a + " ") {
      BlankMoves(a + " ");
      OpenUnit(a);
      var rest := a[BlankLength(a + " ")..];
      Grouped(rest, c, w);
      WordsWithComment(rest, c, w);
      WordsInFront(a, u);
      WordsInFront(a, v);
    } else {
      var n := WordBehind(a, u, v);
      Grouped(a[n..], c, w);
      WordsWithComment(a[n..], c, w);
      WordInFront(a, u, n);
      WordInFront(a, v, n);
    }
  }

  lemma WordsInFront(a: string, t: string)
    requires |a| > 0 && Open(a) && Opens(t) && IsBlank(a + " ")
    ensures BlankLength(a + " ") <= |a| && Words(a + t) == Words(a[BlankLength(a + " ")..] + t)
  {
    hide Open, Opens, Words, IsBlank, BlankLength, ItemLength;
    SameUnit(a, t);
    WordsBlank(a + t);
  }

  lemma WordInFront(a: string, t: string, n: nat)
    requires |a| > 0 && Open(a) && Opens(t) && !IsBlank(a + " ") && n <= |a| && WordLength(a + t) == n
    ensures Words(a + t) == [a[..n]] + Words(a[n..] + t)
  {
    hide Open, Opens, Words, IsBlank, BlankLength, ItemLength, WordLength;
    SameUnit(a, t);
    WordsStep(a + t);
    WordMoves(a + t);
    assert (a + t)[..n] == a[..n] && (a + t)[n..] == a[n..] + t;
  }

  lemma WordMoves(x: string)
    requires |x| > 0 && !IsBlank(x)
    ensures WordLength(x) > 0
  {
  }

  lemma BlankMoves(s: string)
    requires IsBlank(s)
    ensures BlankLength(s) > 0
  {
  }

  lemma BlankFirst(x: string)
    requires IsBlank(x)
    ensures SpaceLength(x) == BlankLength(x) + SpaceLength(Drop(x, BlankLength(x)))
  {
    hide IsBlank, BlankLength;
  }

  lemma WordsBlank(x: string)
    requires IsBlank(x)
    ensures Words(x) == Words(Drop(x, BlankLength(x)))
  {
    hide IsBlank, BlankLength, WordLength, Words, SpaceLength, Drop;
    var x' := Drop(x, BlankLength(x));
    BlankFirst(x);
    WordsSkip(x);
    WordsSkip(x');
    DropDrop(x, BlankLength(x), SpaceLength(x'));
  }

  // The word at the front of an open text is the same in front of either blank.
  lemma {:induction false} WordBehind(a: string, u: string, v: string) returns (n: nat)
    requires |a| > 0 && Open(a) && !IsBlank(a + " ") && Opens(u) && Opens(v) && IsBlank(u) && IsBlank(v)
    ensures 0 < n <= |a| && Open(a[n..]) && WordLength(a + u) == n == WordLength(a + v)
    decreases |a|
  {
    hide ItemLength, IsBlank, Opens, BlankLength;
    SameUnit(a, u);
    SameUnit(a, v);
    n := ItemLength(a + " ");
    ItemMoves(a + " ");
    var rest := a[n..];
    if |rest| == 0 {
      assert rest + u == u && rest + v == v;
      BlankStops(u);
      BlankStops(v);
    } else if IsBlank(rest + " ") {
      SameUnit(rest, u);
      SameUnit(rest, v);
      BlankStops(rest + u);
      BlankStops(rest + v);
    } else {
      var m := WordBehind(rest, u, v);
      assert a[n..][m..] == a[n + m..];
      n := n + m;
    }
  }

  lemma ItemMoves(s: string)
    requires s != ""
    ensures ItemLength(s) > 0
  {
  }

  lemma BlankStops(x: string)
    requires IsBlank(x)
    ensures WordLength(x) == 0
  {
  }
}
