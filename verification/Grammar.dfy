/**
 Configuration strings by their grammar: what `cp_uncomment`, `cp_unquote`, `cp_argvec` and
 `cp_spacevec` of `lib/confparse.cc` make of words, quotes, escapes, spaces and comments.
 */
module Grammar {
  import opened Scan
  import opened Uncomment
  import opened Quote
  import opened ArgVec
  import opened Comments
  import opened Escapes
  import SpaceVec

  // ----- The grammar --------------------------------------------------------------------

  // What stands between words.
  datatype Blank = Space(c: char) | Remark(text: string)

  ghost predicate IsBlankUnit(b: Blank) {
    match b
    case Space(c) => 9 <= c as int <= 13 || c as int == 32
    case Remark(text) => IsNote(text)
  }

  // What stands between double quotes: a character, or an escape with its value.
  datatype Inner = Literal(c: char) | Escaped(e: string, v: string)

  // An escape that is one in front of any text.
  ghost predicate IsEscape(e: string, v: string) {
    |e| > 1 && e[0] == '\\' && forall rest: string :: ProcessBackslash(e + rest) == Escape(|e|, v)
  }

  ghost predicate IsInner(x: Inner) {
    match x
    case Literal(c) => c != '\"' && c != '\\'
    case Escaped(e, v) => IsEscape(e, v)
  }

  // The parts of a word: a character, a slash or backslash with the character behind it, a
  // quoted string, or a string of hex digits with its value.
  datatype Token =
    | Letter(c: char)
    | Pair(first: char, c: char)
    | Single(body: string)
    | Quoted(chars: seq<Inner>)
    | Angle(ds: seq<Digit>, after: seq<Fill>, v: string)

  predicate IsLetter(c: char) {
    !(9 <= c as int <= 13) && c !in [' ', '\"', '\'', '\\', '/']
  }

  // Between commas a word has none.
  ghost predicate IsToken(t: Token, comma: bool) {
    match t
    case Letter(c) => IsLetter(c) && (comma ==> c != ',')
    case Pair(first, c) => first in ['/', '\\'] && IsLetter(c) && c !in ['*', '<', ',']
    case Single(body) => forall k :: 0 <= k < |body| ==> body[k] != '\''
    case Quoted(chars) => forall k :: 0 <= k < |chars| ==> IsInner(chars[k])
    case Angle(ds, after, v) => AreHex(ds) && AreFills(after) && Prints(ds, v)
  }

  ghost predicate AreTokens(ts: seq<Token>, comma: bool) {
    forall k :: 0 <= k < |ts| ==> IsToken(ts[k], comma)
  }

  ghost predicate AreBlanks(bs: seq<Blank>) {
    forall k :: 0 <= k < |bs| ==> IsBlankUnit(bs[k])
  }

  datatype Word = Word(tokens: seq<Token>, behind: seq<Blank>)

  ghost predicate IsWord(w: Word, comma: bool) {
    |w.tokens| > 0 && AreTokens(w.tokens, comma) && AreBlanks(w.behind)
  }

  ghost predicate AreWords(ws: seq<Word>, comma: bool) {
    forall k :: 0 <= k < |ws| ==> IsWord(ws[k], comma)
  }

  // Blanks, and words with blanks behind them.
  datatype Line = Line(front: seq<Blank>, words: seq<Word>)

  ghost predicate IsLine(x: Line, comma: bool) {
    AreBlanks(x.front) && AreWords(x.words, comma)
  }

  // ----- Its text -----------------------------------------------------------------------

  function BlankText(b: Blank): string {
    match b
    case Space(c) => [c]
    case Remark(text) => text
  }

  function BlanksText(bs: seq<Blank>): string
    decreases |bs|
  {
    if |bs| == 0 then [] else BlankText(bs[0]) + BlanksText(bs[1..])
  }

  function InnerText(x: Inner): string {
    match x
    case Literal(c) => [c]
    case Escaped(e, v) => e
  }

  function InnersText(xs: seq<Inner>): string
    decreases |xs|
  {
    if |xs| == 0 then [] else InnerText(xs[0]) + InnersText(xs[1..])
  }

  predicate HasText(t: Token) {
    t.Angle? ==> forall k :: 0 <= k < |t.ds| ==> t.ds[k].value < 16
  }

  function TokenText(t: Token): string
    requires HasText(t)
  {
    match t
    case Letter(c) => [c]
    case Pair(first, c) => [first, c]
    case Single(body) => ['\''] + body + ['\'']
    case Quoted(chars) => ['\"'] + InnersText(chars) + ['\"']
    case Angle(ds, after, _) => AngleText(ds, after)
  }

  function TokensText(ts: seq<Token>): string
    requires forall k :: 0 <= k < |ts| ==> HasText(ts[k])
    decreases |ts|
  {
    if |ts| == 0 then [] else TokenText(ts[0]) + TokensText(ts[1..])
  }

  function WordText(w: Word): string
    requires forall k :: 0 <= k < |w.tokens| ==> HasText(w.tokens[k])
  {
    TokensText(w.tokens) + BlanksText(w.behind)
  }

  ghost function WordsText(ws: seq<Word>, comma: bool): string
    requires AreWords(ws, comma)
    decreases |ws|
  {
    if |ws| == 0 then [] else WordText(ws[0]) + WordsText(ws[1..], comma)
  }

  ghost function LineText(x: Line, comma: bool): string
    requires IsLine(x, comma)
  {
    BlanksText(x.front) + WordsText(x.words, comma)
  }

  // ----- Its meaning --------------------------------------------------------------------

  function InnerMeaning(x: Inner): string {
    match x
    case Literal(c) => [c]
    case Escaped(_, v) => v
  }

  function InnersMeaning(xs: seq<Inner>): string
    decreases |xs|
  {
    if |xs| == 0 then [] else InnerMeaning(xs[0]) + InnersMeaning(xs[1..])
  }

  // Quotes go, and \<...> stands for its bytes.
  function TokenMeaning(t: Token): string {
    match t
    case Letter(c) => [c]
    case Pair(first, c) => [first, c]
    case Single(body) => body
    case Quoted(chars) => InnersMeaning(chars)
    case Angle(_, _, v) => v
  }

  // ----- Items --------------------------------------------------------------------------

  // A part of a text that is one item, in front of the rest.
  ghost predicate OneItemOf(here: string, rest: string) {
    |here| > 0 && !IsBlank(here + rest) && ItemLength(here + rest) == |here|
  }

  lemma LetterItem(c: char, rest: string)
    requires IsLetter(c)
    ensures OneItemOf([c], rest)
    ensures UnquoteStep([c] + rest, Outside) == Step(1, [c], Outside)
  {
  }

  lemma PairItem(first: char, c: char, rest: string)
    requires first in ['/', '\\'] && c !in ['*', '<', '/']
    ensures OneItemOf([first], [c] + rest)
    ensures UnquoteStep([first] + ([c] + rest), Outside) == Step(1, [first], Outside)
  {
    assert ([first] + ([c] + rest))[1] == c;
  }

  lemma SingleItem(body: string, rest: string)
    requires forall k :: 0 <= k < |body| ==> body[k] != '\''
    ensures OneItemOf(['\''] + body + ['\''], rest)
  {
    var s := ['\''] + body + ['\''] + rest;
    assert s[1 + |body|] == '\'';
    forall k | 1 <= k < 1 + |body| ensures s[k] != '\'' {
      assert s[k] == body[k - 1];
    }
    SingleRun(s, 1, 1 + |body|);
  }

  lemma {:induction false} SingleRun(s: string, i: nat, n: nat)
    requires i <= n < |s| && s[n] == '\'' && forall k :: i <= k < n ==> s[k] != '\''
    ensures SingleQuoteEnd(s, i) == n + 1
    decreases n - i
  {
    if i < n {
      SingleRun(s, i + 1, n);
    }
  }

  lemma {:induction false} SingleUnquoted(body: string, rest: string)
    requires forall k :: 0 <= k < |body| ==> body[k] != '\''
    ensures Unquoted(body + ['\''] + rest, State.Single) == body + Unquoted(rest, Outside)
    decreases |body|
  {
    hide Unquoted;
    var x := body + ['\''] + rest;
    if |body| == 0 {
      assert x[1..] == rest;
      UnquoteUnfoldAt(x, State.Single);
      assert [] + Unquoted(rest, Outside) == body + Unquoted(rest, Outside);
    } else {
      assert x[0] == body[0] && x[1..] == body[1..] + ['\''] + rest;
      UnquoteUnfoldAt(x, State.Single);
      SingleUnquoted(body[1..], rest);
      assert [body[0]] + (body[1..] + Unquoted(rest, Outside)) == body + Unquoted(rest, Outside);
    }
  }

  lemma UnquoteUnfoldAt(x: string, q: State)
    requires |x| > 0
    ensures var st := UnquoteStep(x, q); Unquoted(x, q) == st.text + Unquoted(x[st.length..], st.next)
  {
    hide UnquoteStep;
  }

  lemma {:induction false} InnersUnquoted(xs: seq<Inner>, rest: string)
    requires forall k :: 0 <= k < |xs| ==> IsInner(xs[k])
    ensures var b := InnersText(xs) + ['\"'];
            ReturnLength(b + rest, Double) == |b|
            && Unquoted(b + rest, Double) == InnersMeaning(xs) + Unquoted(rest, Outside)
    decreases |xs|
  {
    hide Unquoted, ReturnLength, UnquoteStep, IsInner;
    var x := InnersText(xs) + ['\"'] + rest;
    if |xs| == 0 {
      assert x == ['\"'] + rest && x[1..] == rest;
      UnquoteClose(x);
      assert [] + Unquoted(rest, Outside) == Unquoted(rest, Outside);
    } else {
      InnersUnquoted(xs[1..], rest);
      var here, more := InnerText(xs[0]), InnersText(xs[1..]) + ['\"'] + rest;
      assert x == here + more && x[|here|..] == more;
      InnerStep(xs[0], more);
      UnquoteUnfold(x);
      assert InnerMeaning(xs[0]) + (InnersMeaning(xs[1..]) + Unquoted(rest, Outside))
          == InnersMeaning(xs) + Unquoted(rest, Outside);
    }
  }

  lemma InnerStep(x: Inner, more: string)
    requires IsInner(x) && |more| > 0
    ensures |InnerText(x)| > 0
    ensures UnquoteStep(InnerText(x) + more, Double) == Step(|InnerText(x)|, InnerMeaning(x), Double)
  {
    hide ProcessBackslash;
    match x
    case Literal(c) =>
    case Escaped(e, v) =>
      var s := e + more;
      assert s[0] == '\\' && ProcessBackslash(s) == Escape(|e|, v);
  }

  lemma QuotedItemOf(xs: seq<Inner>, rest: string)
    requires forall k :: 0 <= k < |xs| ==> IsInner(xs[k])
    ensures OneItemOf(['\"'] + InnersText(xs) + ['\"'], rest)
  {
    hide InnersText, InnersMeaning, IsInner, ReturnLength, Unquoted, IsBlank, ItemLength;
    InnersUnquoted(xs, rest);
    QuoteCloses(InnersText(xs) + ['\"'], rest);
    assert ['\"'] + InnersText(xs) + ['\"'] == ['\"'] + (InnersText(xs) + ['\"']);
  }

  lemma AngleItem(ds: seq<Digit>, after: seq<Fill>, v: string, rest: string)
    requires AreHex(ds) && AreFills(after) && Prints(ds, v)
    ensures OneItemOf(AngleText(ds, after), rest)
    ensures UnquoteStep(AngleText(ds, after) + rest, Outside) == Step(|AngleText(ds, after)|, v, Outside)
  {
    hide ProcessBackslash, AngleEnd, AreFills, Prints, AngleText;
    var e := AngleText(ds, after);
    AngleStarts(ds, after);
    AngleDecodes(ds, after, v, rest);
    AngleDecodes(ds, after, v, rest + [' ']);
    assert e + (rest + [' ']) == e + rest + [' '];
    AngleIn(e + rest, |e|, v);
    assert (e + rest)[0] == e[0] && (e + rest)[1] == e[1];
  }

  lemma AngleIn(s: string, n: nat, v: string)
    requires IsAngleStart(s) && 2 < n <= |s| && ProcessBackslash(s + [' ']) == Escape(n, v)
    ensures AngleEnd(s, 2) == n
  {
    hide AngleEscape, AngleEnd;
    var t := s + [' '];
    AngleAgrees(t, 2, 0, 0);
    assert t[0] == s[0] && t[1] == s[1];
    assert t[..n] == s[..n];
    AngleLocal(t, s, 2, n);
  }

  // ----- Copying ------------------------------------------------------------------------

  lemma ItemCopied(here: string, rest: string, gap: Gap, comma: bool)
    requires OneItemOf(here, rest) && !(comma && here[0] == ',')
    ensures !Copied(rest, Spaces([]), comma).lost ==>
      Copied(here + rest, gap, comma) == Copy(Sep(gap) + here + Copied(rest, Spaces([]), comma).tail, false)
    ensures Stop(here + rest, comma) == |here| + Stop(rest, comma)
  {
    hide Copied, Stop, ItemLength, IsBlank, Sep;
    var x := here + rest;
    assert x[|here|..] == rest && x[..|here|] == here && x[0] == here[0];
    CopiedItem(x, gap, comma);
    assert "" == [];
  }

  lemma TokenCopied(t: Token, rest: string, gap: Gap, comma: bool)
    requires IsToken(t, comma) && !Copied(rest, Spaces([]), comma).lost
    ensures HasText(t) && |TokenText(t)| > 0
    ensures Copied(TokenText(t) + rest, gap, comma)
         == Copy(Sep(gap) + TokenText(t) + Copied(rest, Spaces([]), comma).tail, false)
    ensures Stop(TokenText(t) + rest, comma) == |TokenText(t)| + Stop(rest, comma)
  {
    hide Copied, Stop, OneItemOf, AngleText, IsInner, Prints, AreFills, InnersText, Sep;
    match t
    case Letter(c) =>
      LetterItem(c, rest);
      ItemCopied([c], rest, gap, comma);
    case Pair(first, c) =>
      LetterItem(c, rest);
      ItemCopied([c], rest, Spaces([]), comma);
      PairItem(first, c, rest);
      ItemCopied([first], [c] + rest, gap, comma);
      PairTogether(first, c, rest, gap, Copied(rest, Spaces([]), comma).tail);
    case Single(body) =>
      SingleItem(body, rest);
      ItemCopied(['\''] + body + ['\''], rest, gap, comma);
    case Quoted(chars) =>
      QuotedItemOf(chars, rest);
      ItemCopied(['\"'] + InnersText(chars) + ['\"'], rest, gap, comma);
    case Angle(ds, after, v) =>
      AngleStarts(ds, after);
      AngleItem(ds, after, v, rest);
      ItemCopied(AngleText(ds, after), rest, gap, comma);
  }

  lemma PairTogether(first: char, c: char, rest: string, gap: Gap, tail: string)
    ensures [first] + ([c] + rest) == [first, c] + rest
    ensures Sep(gap) + [first] + (Sep(Spaces([])) + [c] + tail) == Sep(gap) + [first, c] + tail
  {
    assert Sep(Spaces([])) == [];
  }

  lemma {:induction false} TokensCopied(ts: seq<Token>, rest: string, gap: Gap, comma: bool)
    requires |ts| > 0 && AreTokens(ts, comma) && !Copied(rest, Spaces([]), comma).lost
    ensures (forall k :: 0 <= k < |ts| ==> HasText(ts[k])) && |TokensText(ts)| > 0
    ensures Copied(TokensText(ts) + rest, gap, comma)
         == Copy(Sep(gap) + TokensText(ts) + Copied(rest, Spaces([]), comma).tail, false)
    ensures Stop(TokensText(ts) + rest, comma) == |TokensText(ts)| + Stop(rest, comma)
    decreases |ts|
  {
    hide *;
    TokensParts(ts, comma);
    var here, more := TokenText(ts[0]), TokensText(ts[1..]);
    if |ts| == 1 {
      TokenCopied(ts[0], rest, gap, comma);
      assert here + more == here;
    } else {
      TokensCopied(ts[1..], rest, Spaces([]), comma);
      TokenCopied(ts[0], more + rest, gap, comma);
      assert here + more + rest == here + (more + rest);
      NoSep(gap, here, more, Copied(rest, Spaces([]), comma).tail);
    }
  }

  lemma TokensParts(ts: seq<Token>, comma: bool)
    requires AreTokens(ts, comma)
    ensures forall k :: 0 <= k < |ts| ==> HasText(ts[k])
    ensures |ts| > 0 ==> IsToken(ts[0], comma) && AreTokens(ts[1..], comma)
    ensures |ts| > 0 ==> TokensText(ts) == TokenText(ts[0]) + TokensText(ts[1..])
    ensures |ts| == 1 ==> TokensText(ts[1..]) == []
  {
    hide TokenText, IsToken, HasText;
    forall k | 0 <= k < |ts| ensures HasText(ts[k]) {
      TokenHasText(ts[k], comma);
    }
  }

  lemma TokenHasText(t: Token, comma: bool)
    requires IsToken(t, comma)
    ensures HasText(t)
  {
    hide IsInner, AreFills, Prints;
  }

  lemma NoSep(gap: Gap, here: string, more: string, tail: string)
    ensures Sep(gap) + here + (Sep(Spaces([])) + more + tail) == Sep(gap) + (here + more) + tail
  {
    assert Sep(Spaces([])) == [];
  }

  // ----- Blanks -------------------------------------------------------------------------

  // A run of spaces stays, and one with a comment in it becomes one space.
  function Separator(bs: seq<Blank>): string {
    if forall k :: 0 <= k < |bs| ==> bs[k].Space? then BlanksText(bs) else [' ']
  }

  // The state of the copy behind blanks.
  function GapPast(gap: Gap, b: Blank): Gap {
    match gap
    case Start => Start
    case Spaces(text) => if b.Space? then Spaces(text + [b.c]) else Closed
    case Closed => Closed
  }

  function GapBehind(gap: Gap, bs: seq<Blank>): Gap
    decreases |bs|
  {
    if |bs| == 0 then gap else GapBehind(GapPast(gap, bs[0]), bs[1..])
  }

  lemma BlankCopied(b: Blank, rest: string, gap: Gap, comma: bool)
    requires IsBlankUnit(b)
    ensures Copied(BlankText(b) + rest, gap, comma) == Copied(rest, GapPast(gap, b), comma)
    ensures Stop(BlankText(b) + rest, comma) == |BlankText(b)| + Stop(rest, comma)
  {
    hide Copied, Stop, IsBlank, IsBlankUnit, BlankLength, Drop, IsSpace;
    BlankStarts(b, rest);
    OneBlank(BlankText(b) + rest, gap, comma);
  }

  lemma BlankStarts(b: Blank, rest: string)
    requires IsBlankUnit(b)
    ensures var x := BlankText(b) + rest;
            |BlankText(b)| > 0 && IsBlank(x) && BlankLength(x) == |BlankText(b)| && Drop(x, BlankLength(x)) == rest
            && (IsSpace(x[0]) <==> b.Space?) && (b.Space? ==> x[0] == b.c)
  {
    hide IsNote, IsComment, CommentLength;
    var x := BlankText(b) + rest;
    match b
    case Space(c) =>
      assert x[0] == c && IsSpace(c) && BlankLength(x) == 1 && Drop(x, 1) == rest;
    case Remark(text) =>
      NoteIsComment(text, rest);
      CommentIsBlank(text, rest);
  }

  lemma OneBlank(x: string, gap: Gap, comma: bool)
    requires IsBlank(x)
    ensures Copied(x, gap, comma) == Copied(Drop(x, BlankLength(x)), GapAfter(gap, x), comma)
    ensures Stop(x, comma) == BlankLength(x) + Stop(Drop(x, BlankLength(x)), comma)
  {
    hide IsCommentStart, IsSpace, BlankLength, GapAfter, Drop;
  }

  lemma {:induction false} BlanksCopied(bs: seq<Blank>, rest: string, gap: Gap, comma: bool)
    requires AreBlanks(bs)
    ensures Copied(BlanksText(bs) + rest, gap, comma) == Copied(rest, GapBehind(gap, bs), comma)
    ensures Stop(BlanksText(bs) + rest, comma) == |BlanksText(bs)| + Stop(rest, comma)
    decreases |bs|
  {
    hide Copied, Stop, BlankText, IsBlankUnit;
    if |bs| == 0 {
      assert BlanksText(bs) + rest == rest;
    } else {
      var more := BlanksText(bs[1..]);
      BlankCopied(bs[0], more + rest, gap, comma);
      BlanksCopied(bs[1..], rest, GapPast(gap, bs[0]), comma);
      assert BlanksText(bs) + rest == BlankText(bs[0]) + (more + rest);
    }
  }

  lemma {:induction false} GapSpaces(bs: seq<Blank>, gap: Gap)
    ensures gap.Start? ==> GapBehind(gap, bs) == Start
    ensures gap.Closed? ==> GapBehind(gap, bs) == Closed
    ensures gap.Spaces? && (forall k :: 0 <= k < |bs| ==> bs[k].Space?) ==>
      GapBehind(gap, bs) == Spaces(gap.text + BlanksText(bs))
    ensures gap.Spaces? && !(forall k :: 0 <= k < |bs| ==> bs[k].Space?) ==> GapBehind(gap, bs) == Closed
    decreases |bs|
  {
    if |bs| > 0 {
      GapSpaces(bs[1..], GapPast(gap, bs[0]));
      assert bs == [bs[0]] + bs[1..];
      if gap.Spaces? && bs[0].Space? {
        assert gap.text + [bs[0].c] + BlanksText(bs[1..]) == gap.text + BlanksText(bs);
        assert (forall k :: 0 <= k < |bs| ==> bs[k].Space?)
          <==> forall k :: 0 <= k < |bs[1..]| ==> bs[1..][k].Space?;
      }
    } else if gap.Spaces? {
      assert gap.text + BlanksText(bs) == gap.text;
    }
  }

  lemma SeparatorIs(bs: seq<Blank>)
    ensures Sep(GapBehind(Spaces([]), bs)) == Separator(bs)
  {
    GapSpaces(bs, Spaces([]));
    assert [] + BlanksText(bs) == BlanksText(bs);
  }

  // ----- What is read -------------------------------------------------------------------

  // The words with their separators.
  ghost function Shown(ws: seq<Word>, comma: bool): string
    requires AreWords(ws, comma)
    decreases |ws|
  {
    if |ws| == 0 then []
    else if |ws| == 1 then TokensText(ws[0].tokens)
    else TokensText(ws[0].tokens) + (Separator(ws[0].behind) + Shown(ws[1..], comma))
  }

  // What may stand behind a line.
  predicate EndsLine(tail: string, comma: bool) {
    |tail| > 0 ==> comma && tail[0] == ','
  }

  lemma TailCopied(tail: string, gap: Gap, comma: bool)
    requires EndsLine(tail, comma)
    ensures Copied(tail, gap, comma) == Copy([], false) && Stop(tail, comma) == 0
  {
    hide ItemLength;
  }

  lemma {:induction false} WordsCopied(ws: seq<Word>, tail: string, gap: Gap, comma: bool)
    requires AreWords(ws, comma) && EndsLine(tail, comma)
    ensures Copied(WordsText(ws, comma) + tail, gap, comma)
         == Copy(if |ws| == 0 then [] else Sep(gap) + Shown(ws, comma), false)
    ensures Stop(WordsText(ws, comma) + tail, comma) == |WordsText(ws, comma)|
    decreases |ws|
  {
    hide *;
    WordsParts(ws, comma);
    if |ws| == 0 {
      assert WordsText(ws, comma) + tail == tail;
      TailCopied(tail, gap, comma);
    } else {
      var here, blanks, more := TokensText(ws[0].tokens), BlanksText(ws[0].behind), WordsText(ws[1..], comma);
      WordsCopied(ws[1..], tail, GapBehind(Spaces([]), ws[0].behind), comma);
      BlanksCopied(ws[0].behind, more + tail, Spaces([]), comma);
      SeparatorIs(ws[0].behind);
      TokensCopied(ws[0].tokens, blanks + (more + tail), gap, comma);
      assert here + blanks + more + tail == here + (blanks + (more + tail));
      ShownStep(ws, comma, Sep(gap));
    }
  }

  lemma WordsParts(ws: seq<Word>, comma: bool)
    requires AreWords(ws, comma)
    ensures |ws| == 0 ==> WordsText(ws, comma) == []
    ensures |ws| > 0 ==>
      var w := ws[0];
      && |w.tokens| > 0 && AreTokens(w.tokens, comma) && AreBlanks(w.behind) && AreWords(ws[1..], comma)
      && (forall k :: 0 <= k < |w.tokens| ==> HasText(w.tokens[k]))
      && WordsText(ws, comma) == TokensText(w.tokens) + BlanksText(w.behind) + WordsText(ws[1..], comma)
  {
    hide TokensText, BlanksText;
    if |ws| > 0 {
      assert IsWord(ws[0], comma);
      TokensParts(ws[0].tokens, comma);
    }
  }

  lemma ShownStep(ws: seq<Word>, comma: bool, sep: string)
    requires |ws| > 0 && AreWords(ws, comma) && forall k :: 0 <= k < |ws[0].tokens| ==> HasText(ws[0].tokens[k])
    ensures sep + Shown(ws, comma)
         == sep + TokensText(ws[0].tokens)
            + if |ws| == 1 then [] else Separator(ws[0].behind) + Shown(ws[1..], comma)
  {
    hide TokensText, Separator;
  }

  lemma LineCopied(x: Line, tail: string, comma: bool)
    requires IsLine(x, comma) && EndsLine(tail, comma)
    ensures PartialText(LineText(x, comma) + tail, comma) == Shown(x.words, comma)
    ensures Stop(LineText(x, comma) + tail, comma) == |LineText(x, comma)|
  {
    hide Copied, Stop, BlanksText, WordsText, Shown, AreWords, AreBlanks, GapBehind, EndsLine;
    var front, words := BlanksText(x.front), WordsText(x.words, comma);
    BlanksCopied(x.front, words + tail, Start, comma);
    GapSpaces(x.front, Start);
    WordsCopied(x.words, tail, Start, comma);
    assert front + words + tail == front + (words + tail);
    ShownNothing(x.words, comma);
  }

  lemma ShownNothing(ws: seq<Word>, comma: bool)
    requires AreWords(ws, comma)
    ensures |ws| == 0 ==> Shown(ws, comma) == []
    ensures Sep(Start) + Shown(ws, comma) == Shown(ws, comma)
  {
    hide AreWords, TokensText, Separator;
    assert Sep(Start) == [];
  }

  // cp_uncomment keeps the words, quotes and escapes of a line as they are written, and puts
  // between them their spaces, or one space where a comment is.
  lemma LineUncommented(x: Line)
    requires IsLine(x, false)
    ensures UncommentText(LineText(x, false)) == Shown(x.words, false)
  {
    hide PartialText, Stop, LineText, Shown;
    LineCopied(x, [], false);
    assert LineText(x, false) + [] == LineText(x, false);
  }

  // ----- Unquoting ----------------------------------------------------------------------

  function TokensMeaning(ts: seq<Token>): string
    decreases |ts|
  {
    if |ts| == 0 then [] else TokenMeaning(ts[0]) + TokensMeaning(ts[1..])
  }

  function WordsMeaning(ws: seq<Word>): string
    decreases |ws|
  {
    if |ws| == 0 then []
    else if |ws| == 1 then TokensMeaning(ws[0].tokens)
    else TokensMeaning(ws[0].tokens) + (Separator(ws[0].behind) + WordsMeaning(ws[1..]))
  }

  // A text that the machine reads outside of quotes as another one.
  ghost predicate ReadsAs(here: string, meaning: string, rest: string) {
    Unquoted(here + rest, Outside) == meaning + Unquoted(rest, Outside)
  }

  lemma StepReads(here: string, meaning: string, rest: string)
    requires |here| > 0 && UnquoteStep(here + rest, Outside) == Step(|here|, meaning, Outside)
    ensures ReadsAs(here, meaning, rest)
  {
    hide Unquoted, UnquoteStep;
    UnquoteUnfoldAt(here + rest, Outside);
    assert (here + rest)[|here|..] == rest;
  }

  lemma TokenReads(t: Token, rest: string, comma: bool)
    requires IsToken(t, comma)
    ensures HasText(t) && ReadsAs(TokenText(t), TokenMeaning(t), rest)
  {
    hide Unquoted, UnquoteStep, OneItemOf, AngleText, IsInner, Prints, AreFills, InnersText, InnersMeaning;
    match t
    case Letter(c) =>
      LetterItem(c, rest);
      StepReads([c], [c], rest);
    case Pair(first, c) =>
      PairItem(first, c, rest);
      StepReads([first], [first], [c] + rest);
      LetterItem(c, rest);
      StepReads([c], [c], rest);
      PairReads(first, c, rest);
    case Single(body) =>
      var x := ['\''] + body + ['\''] + rest;
      assert x[1..] == body + ['\''] + rest;
      QuoteOpens(x, State.Single);
      SingleUnquoted(body, rest);
    case Quoted(chars) =>
      var x := ['\"'] + InnersText(chars) + ['\"'] + rest;
      assert x[1..] == InnersText(chars) + ['\"'] + rest;
      QuoteOpens(x, Double);
      InnersUnquoted(chars, rest);
    case Angle(ds, after, v) =>
      AngleStarts(ds, after);
      AngleItem(ds, after, v, rest);
      StepReads(AngleText(ds, after), v, rest);
  }

  lemma QuoteOpens(x: string, q: State)
    requires |x| > 0 && x[0] == (if q.Double? then '\"' else '\'') && !q.Outside?
    ensures Unquoted(x, Outside) == Unquoted(x[1..], q)
  {
    hide Unquoted;
    UnquoteUnfoldAt(x, Outside);
    assert [] + Unquoted(x[1..], q) == Unquoted(x[1..], q);
  }

  lemma PairReads(first: char, c: char, rest: string)
    requires ReadsAs([first], [first], [c] + rest) && ReadsAs([c], [c], rest)
    ensures ReadsAs([first, c], [first, c], rest)
  {
    hide Unquoted;
    assert [first, c] + rest == [first] + ([c] + rest);
    assert [first, c] + Unquoted(rest, Outside) == [first] + ([c] + Unquoted(rest, Outside));
  }

  lemma ReadsBoth(a: string, x: string, b: string, y: string, rest: string)
    requires ReadsAs(a, x, b + rest) && ReadsAs(b, y, rest)
    ensures ReadsAs(a + b, x + y, rest)
  {
    hide Unquoted;
    assert a + b + rest == a + (b + rest);
    assert x + y + Unquoted(rest, Outside) == x + (y + Unquoted(rest, Outside));
  }

  lemma ReadsNothing(rest: string)
    ensures ReadsAs([], [], rest)
  {
    hide Unquoted;
    assert [] + rest == rest;
    assert [] + Unquoted(rest, Outside) == Unquoted(rest, Outside);
  }

  lemma {:induction false} TokensRead(ts: seq<Token>, rest: string, comma: bool)
    requires AreTokens(ts, comma)
    ensures (forall k :: 0 <= k < |ts| ==> HasText(ts[k])) && ReadsAs(TokensText(ts), TokensMeaning(ts), rest)
    decreases |ts|
  {
    hide TokenText, TokenMeaning, IsToken, HasText, ReadsAs, AreTokens;
    TokensParts(ts, comma);
    if |ts| == 0 {
      ReadsNothing(rest);
    } else {
      TokensRead(ts[1..], rest, comma);
      TokenReads(ts[0], TokensText(ts[1..]) + rest, comma);
      ReadsBoth(TokenText(ts[0]), TokenMeaning(ts[0]), TokensText(ts[1..]), TokensMeaning(ts[1..]), rest);
    }
  }

  predicate IsPlain(c: char) {
    c != '\'' && c != '\"' && c != '\\'
  }

  predicate ArePlain(s: string) {
    forall k :: 0 <= k < |s| ==> IsPlain(s[k])
  }

  lemma {:induction false} SpacesRead(s: string, rest: string)
    requires ArePlain(s)
    ensures ReadsAs(s, s, rest)
    decreases |s|
  {
    hide ReadsAs;
    if |s| == 0 {
      ReadsNothing(rest);
    } else {
      SpacesRead(s[1..], rest);
      var more := s[1..] + rest;
      assert ([s[0]] + more)[0] == s[0];
      StepReads([s[0]], [s[0]], more);
      ReadsBoth([s[0]], [s[0]], s[1..], s[1..], rest);
      assert [s[0]] + s[1..] == s;
    }
  }

  lemma PlainPush(c: char, s: string)
    requires IsPlain(c) && ArePlain(s)
    ensures ArePlain([c] + s)
  {
  }

  lemma SpaceIsPlain(c: char)
    requires IsBlankUnit(Space(c))
    ensures IsPlain(c)
  {
  }

  lemma {:induction false} SpacesOnly(bs: seq<Blank>)
    requires AreBlanks(bs) && forall k :: 0 <= k < |bs| ==> bs[k].Space?
    ensures ArePlain(BlanksText(bs))
    decreases |bs|
  {
    if |bs| > 0 {
      assert IsBlankUnit(bs[0]) && BlankText(bs[0]) == [bs[0].c];
      SpacesOnly(bs[1..]);
      SpaceIsPlain(bs[0].c);
      PlainPush(bs[0].c, BlanksText(bs[1..]));
    }
  }

  lemma SeparatorReads(bs: seq<Blank>, rest: string)
    requires AreBlanks(bs)
    ensures ReadsAs(Separator(bs), Separator(bs), rest)
  {
    hide ReadsAs, AreBlanks, BlanksText;
    if forall k :: 0 <= k < |bs| ==> bs[k].Space? {
      SpacesOnly(bs);
      SpacesRead(BlanksText(bs), rest);
    } else {
      assert IsPlain(' ');
      SpacesRead([' '], rest);
    }
  }

  lemma {:induction false} WordsRead(ws: seq<Word>, comma: bool, rest: string)
    requires AreWords(ws, comma)
    ensures ReadsAs(Shown(ws, comma), WordsMeaning(ws), rest)
    decreases |ws|
  {
    hide TokensText, TokensMeaning, Separator, AreTokens, AreBlanks, AreWords, ReadsAs;
    if |ws| == 0 {
      ReadsNothing(rest);
    } else {
      WordsParts(ws, comma);
      var w, behind := ws[0].tokens, Separator(ws[0].behind);
      if |ws| == 1 {
        TokensRead(w, rest, comma);
      } else {
        var more, meaning := Shown(ws[1..], comma), WordsMeaning(ws[1..]);
        WordsRead(ws[1..], comma, rest);
        SeparatorReads(ws[0].behind, more + rest);
        ReadsBoth(behind, behind, more, meaning, rest);
        TokensRead(w, behind + more + rest, comma);
        ReadsBoth(TokensText(w), TokensMeaning(w), behind + more, behind + meaning, rest);
      }
    }
  }

  // cp_unquote gives the words with their quotes and escapes read.
  lemma LineUnquoted(x: Line)
    requires IsLine(x, false)
    ensures UnquoteText(LineText(x, false)) == WordsMeaning(x.words)
  {
    hide UncommentText, Unquoted, LineText, Shown, WordsMeaning, AreWords;
    LineUncommented(x);
    WordsRead(x.words, false, []);
    UnquoteNone();
    var s := Shown(x.words, false);
    assert s + [] == s && WordsMeaning(x.words) + [] == WordsMeaning(x.words);
  }

  // ----- Splitting ----------------------------------------------------------------------

  ghost predicate AreLines(xs: seq<Line>) {
    forall k :: 0 <= k < |xs| ==> IsLine(xs[k], true)
  }

  ghost function LinesText(xs: seq<Line>): string
    requires AreLines(xs) && |xs| > 0
    decreases |xs|
  {
    if |xs| == 1 then LineText(xs[0], true) else LineText(xs[0], true) + ([','] + LinesText(xs[1..]))
  }

  ghost function LinesShown(xs: seq<Line>): seq<string>
    requires AreLines(xs) && |xs| > 0
    decreases |xs|
  {
    var first := Shown(xs[0].words, true);
    if |xs| > 1 then [first] + LinesShown(xs[1..]) else if |xs[0].words| == 0 then [] else [first]
  }

  // cp_argvec splits at the commas outside of words, and only there; an empty last argument
  // is none.
  lemma {:induction false} LinesSplit(xs: seq<Line>)
    requires AreLines(xs) && |xs| > 0
    ensures Args(LinesText(xs)) == LinesShown(xs)
    decreases |xs|
  {
    hide PartialText, Stop, LineText, Shown, IsLine;
    var text := LineText(xs[0], true);
    if |xs| == 1 {
      LineCopied(xs[0], [], true);
      assert text + [] == text;
      LastLine(xs[0]);
    } else {
      var rest := [','] + LinesText(xs[1..]);
      LineCopied(xs[0], rest, true);
      LinesSplit(xs[1..]);
      assert (text + rest)[|text| + 1..] == LinesText(xs[1..]);
    }
  }

  lemma LastLine(x: Line)
    requires IsLine(x, true)
    ensures |Shown(x.words, true)| == 0 <==> |x.words| == 0
    ensures |LineText(x, true)| == 0 ==> |x.words| == 0
  {
    hide TokensText, BlanksText, Separator, AreTokens, AreBlanks;
    if |x.words| > 0 {
      WordsParts(x.words, true);
      SomeTokens(x.words[0].tokens, true);
    }
  }

  lemma NothingLost(comma: bool)
    ensures !Copied([], Spaces([]), comma).lost
  {
  }

  lemma SomeTokens(ts: seq<Token>, comma: bool)
    requires |ts| > 0 && AreTokens(ts, comma)
    ensures (forall k :: 0 <= k < |ts| ==> HasText(ts[k])) && |TokensText(ts)| > 0
  {
    hide *;
    TokensParts(ts, comma);
    NothingLost(comma);
    TokenCopied(ts[0], [], Start, comma);
  }

  // ----- Words --------------------------------------------------------------------------

  lemma {:induction false} BlanksSkipped(bs: seq<Blank>, rest: string)
    requires AreBlanks(bs) && !IsBlank(rest)
    ensures SpaceLength(BlanksText(bs) + rest) == |BlanksText(bs)|
    ensures Drop(BlanksText(bs) + rest, |BlanksText(bs)|) == rest
    decreases |bs|
  {
    hide IsBlank, BlankLength, BlankText, IsBlankUnit;
    var x := BlanksText(bs) + rest;
    if |bs| == 0 {
      assert x == rest;
    } else {
      var here, more := BlankText(bs[0]), BlanksText(bs[1..]) + rest;
      assert x == here + more;
      BlankStarts(bs[0], more);
      BlanksSkipped(bs[1..], rest);
    }
  }

  lemma ItemInWord(here: string, rest: string)
    requires OneItemOf(here, rest)
    ensures SpaceVec.WordLength(here + rest) == |here| + SpaceVec.WordLength(rest)
  {
    hide IsBlank, ItemLength;
    assert Drop(here + rest, |here|) == rest;
  }

  lemma TokenInWord(t: Token, rest: string, comma: bool)
    requires IsToken(t, comma)
    ensures HasText(t) && |TokenText(t)| > 0 && !IsBlank(TokenText(t) + rest)
    ensures SpaceVec.WordLength(TokenText(t) + rest) == |TokenText(t)| + SpaceVec.WordLength(rest)
  {
    hide SpaceVec.WordLength, IsBlank, ItemLength, AngleText, IsInner, Prints, AreFills, InnersText;
    match t
    case Letter(c) =>
      LetterItem(c, rest);
      ItemInWord([c], rest);
    case Pair(first, c) =>
      LetterItem(c, rest);
      ItemInWord([c], rest);
      PairItem(first, c, rest);
      ItemInWord([first], [c] + rest);
      assert [first] + ([c] + rest) == [first, c] + rest;
    case Single(body) =>
      SingleItem(body, rest);
      ItemInWord(['\''] + body + ['\''], rest);
    case Quoted(chars) =>
      QuotedItemOf(chars, rest);
      ItemInWord(['\"'] + InnersText(chars) + ['\"'], rest);
    case Angle(ds, after, v) =>
      AngleStarts(ds, after);
      AngleItem(ds, after, v, rest);
      ItemInWord(AngleText(ds, after), rest);
  }

  lemma {:induction false} TokensInWord(ts: seq<Token>, rest: string, comma: bool)
    requires AreTokens(ts, comma)
    ensures forall k :: 0 <= k < |ts| ==> HasText(ts[k])
    ensures SpaceVec.WordLength(TokensText(ts) + rest) == |TokensText(ts)| + SpaceVec.WordLength(rest)
    ensures |ts| > 0 ==> |TokensText(ts)| > 0 && !IsBlank(TokensText(ts) + rest)
    decreases |ts|
  {
    hide SpaceVec.WordLength, IsBlank, TokenText, IsToken, HasText, AreTokens;
    TokensParts(ts, comma);
    if |ts| == 0 {
      assert TokensText(ts) + rest == rest;
    } else {
      var here, more := TokenText(ts[0]), TokensText(ts[1..]);
      TokensInWord(ts[1..], rest, comma);
      TokenInWord(ts[0], more + rest, comma);
      assert here + more + rest == here + (more + rest);
    }
  }

  // Each word but the last has blanks behind it.
  ghost predicate AreApart(ws: seq<Word>) {
    forall k :: 0 <= k < |ws| - 1 ==> |ws[k].behind| > 0
  }

  ghost function WordTexts(ws: seq<Word>, comma: bool): seq<string>
    requires AreWords(ws, comma)
    decreases |ws|
  {
    if |ws| == 0 then [] else
      assert IsWord(ws[0], comma);
      [TokensText(ws[0].tokens)] + WordTexts(ws[1..], comma)
  }

  lemma {:induction false} WordsApart(bs: seq<Blank>, ws: seq<Word>)
    requires AreBlanks(bs) && AreWords(ws, false) && AreApart(ws)
    ensures SpaceVec.Words(BlanksText(bs) + WordsText(ws, false)) == WordTexts(ws, false)
    decreases |ws|
  {
    hide SpaceVec.Words, SpaceVec.WordLength, SpaceLength, Drop, IsBlank, BlanksText, TokensText, AreTokens;
    hide AreBlanks, AreWords;
    WordsParts(ws, false);
    var t := WordsText(ws, false);
    if |ws| == 0 {
      NotBlank(t);
      BlanksSkipped(bs, t);
      SpaceVecStep(BlanksText(bs) + t, t);
    } else {
      var here, rest := TokensText(ws[0].tokens), BlanksText(ws[0].behind) + WordsText(ws[1..], false);
      assert t == here + rest;
      TokensInWord(ws[0].tokens, rest, false);
      BlanksSkipped(bs, t);
      WordStops(ws[0].behind, WordsText(ws[1..], false));
      if |ws| == 1 {
        WordsParts(ws[1..], false);
      }
      SpaceVecStep(BlanksText(bs) + t, t);
      assert t[..|here|] == here && t[|here|..] == rest;
      WordsApart(ws[0].behind, ws[1..]);
    }
  }

  lemma NotBlank(t: string)
    ensures |t| == 0 ==> !IsBlank(t) && SpaceVec.WordLength(t) == 0
  {
  }

  lemma WordStops(bs: seq<Blank>, rest: string)
    requires AreBlanks(bs) && (|bs| > 0 || |rest| == 0)
    ensures SpaceVec.WordLength(BlanksText(bs) + rest) == 0
  {
    hide IsBlank, BlankText, IsBlankUnit, BlankLength, SpaceVec.WordLength, IsSpace;
    var x := BlanksText(bs) + rest;
    if |bs| > 0 {
      var more := BlanksText(bs[1..]) + rest;
      assert x == BlankText(bs[0]) + more;
      BlankStarts(bs[0], more);
    } else {
      assert x == [];
    }
    NoWord(x);
  }

  lemma NoWord(x: string)
    requires |x| > 0 ==> IsBlank(x)
    ensures SpaceVec.WordLength(x) == 0
  {
    hide IsBlank, ItemLength;
  }

  lemma SpaceVecStep(s: string, t: string)
    requires Drop(s, SpaceLength(s)) == t && SpaceVec.WordLength(t) <= |t|
    ensures SpaceVec.Words(s)
         == if |t| == 0 then []
            else [t[..SpaceVec.WordLength(t)]] + SpaceVec.Words(t[SpaceVec.WordLength(t)..])
  {
    hide SpaceVec.WordLength, SpaceLength, IsBlank;
    SpaceVec.SpaceEnds(s);
    SomeLength(t);
  }

  lemma SomeLength(t: string)
    requires |t| > 0 ==> !IsBlank(t)
    ensures |t| > 0 ==> SpaceVec.WordLength(t) > 0
  {
  }

  // cp_spacevec gives the words as they are written.
  lemma LineSplit(x: Line)
    requires IsLine(x, false) && AreApart(x.words)
    ensures SpaceVec.Words(LineText(x, false)) == WordTexts(x.words, false)
  {
    hide SpaceVec.Words, WordTexts, AreApart, WordsText, BlanksText;
    WordsApart(x.front, x.words);
  }
}
