/**
 `cp_process_backslash`, `cp_unquote` and `cp_quote` of `lib/confparse.cc`.
 */
module Quote {
  import opened Scan
  import opened Uncomment

  // ----- Backslash escapes ----------------------------------------------------------

  // The characters an escape takes and the text it stands for.
  datatype Escape = Escape(length: nat, text: string)

  predicate IsOctalDigit(c: char) {
    '0' <= c <= '7'
  }

  predicate IsHexDigit(c: char) {
    '0' <= c <= '9' || 'A' <= c <= 'F' || 'a' <= c <= 'f'
  }

  function HexValue(c: char): (v: nat)
    requires IsHexDigit(c)
    ensures v < 16
  {
    if c <= '9' then c as int - '0' as int
    else if c <= 'F' then c as int - 'A' as int + 10
    else c as int - 'a' as int + 10
  }

  // The conversion of an int to a char keeps its low eight bits.
  function CharOf(c: nat): char {
    (c % 256) as char
  }

  function OctalEscape(s: string, i: nat, c: nat, d: nat): (e: Escape)
    ensures i <= |s| ==> i <= e.length <= |s|
    decreases |s| - i
  {
    if i < |s| && IsOctalDigit(s[i]) && d < 3
    then OctalEscape(s, i + 1, c * 8 + (s[i] as int - '0' as int), d + 1)
    else Escape(i, [CharOf(c)])
  }

  function HexEscape(s: string, i: nat, c: nat): (e: Escape)
    ensures i <= |s| ==> i <= e.length <= |s|
    decreases |s| - i
  {
    if i < |s| && IsHexDigit(s[i]) then HexEscape(s, i + 1, c * 16 + HexValue(s[i]))
    else Escape(i, [CharOf(c)])
  }

  // From inside \<: c holds d hex digits of the next character.
  function AngleEscape(s: string, i: nat, c: nat, d: nat): (e: Escape)
    ensures i <= |s| ==> i <= e.length <= |s|
    decreases |s| - i
  {
    if i >= |s| then Escape(|s|, "")
    else if s[i] == '>' then Escape(i + 1, "")
    else if IsHexDigit(s[i]) then
      var c' := c * 16 + HexValue(s[i]);
      if d == 1 then
        var e := AngleEscape(s, i + 1, 0, 0);
        Escape(e.length, [CharOf(c')] + e.text)
      else AngleEscape(s, i + 1, c', d + 1)
    else if IsCommentStart(s[i..]) then AngleEscape(s, i + CommentLength(s[i..]), c, d)
    else AngleEscape(s, i + 1, c, d)
  }

  function ProcessBackslash(s: string): (e: Escape)
    requires s != "" && s[0] == '\\'
    ensures 1 <= e.length <= |s| && (|s| > 1 ==> 2 <= e.length)
  {
    if |s| == 1 then Escape(1, "\\")
    else if s[1] == '\r' then Escape(if 2 < |s| && s[2] == '\n' then 3 else 2, "")
    else if s[1] == '\n' then Escape(2, "")
    else if s[1] == 'a' then Escape(2, "\U{07}")
    else if s[1] == 'b' then Escape(2, "\U{08}")
    else if s[1] == 'f' then Escape(2, "\U{0C}")
    else if s[1] == 'n' then Escape(2, "\n")
    else if s[1] == 'r' then Escape(2, "\r")
    else if s[1] == 't' then Escape(2, "\t")
    else if s[1] == 'v' then Escape(2, "\U{0B}")
    else if IsOctalDigit(s[1]) then OctalEscape(s, 2, s[1] as int - '0' as int, 1)
    else if s[1] == 'x' then HexEscape(s, 2, 0)
    else if s[1] == '<' then AngleEscape(s, 2, 0, 0)
    else Escape(2, [s[1]])
  }

  // ----- cp_unquote -----------------------------------------------------------------

  datatype State = Outside | Double | Single

  datatype Step = Step(length: nat, text: string, next: State)

  function UnquoteStep(s: string, q: State): (st: Step)
    requires s != ""
    ensures 1 <= st.length <= |s|
  {
    if s[0] == '\"' || s[0] == '\'' then
      if q.Outside? then Step(1, "", if s[0] == '\"' then Double else Single)
      else if q == (if s[0] == '\"' then Double else Single) then Step(1, "", Outside)
      else Step(1, [s[0]], q)
    else if s[0] == '\\' && |s| > 1 && (q.Double? || (q.Outside? && s[1] == '<')) then
      Step(ProcessBackslash(s).length, ProcessBackslash(s).text, q)
    else Step(1, [s[0]], q)
  }

  function Unquoted(s: string, q: State): string
    decreases |s|, q
  {
    if |s| == 0 then s
    else
      var st := UnquoteStep(s, q);
      st.text + Unquoted(s[st.length..], st.next)
  }

  function UnquoteText(s: string): string {
    Unquoted(UncommentText(s), Outside)
  }

  // From inside quotes, the characters the machine takes to leave them.
  function ReturnLength(s: string, q: State): (n: nat)
    ensures n <= |s|
    decreases |s|, q
  {
    if |s| == 0 then 0
    else
      var st := UnquoteStep(s, q);
      if st.next.Outside? then st.length
      else st.length + ReturnLength(s[st.length..], st.next)
  }

  // ----- The two scanners of quotes agree ---------------------------------------------

  lemma {:induction false} PlainRun(s: string, a: nat, b: nat)
    requires a <= b <= |s|
    requires forall k :: a <= k < b ==> s[k] != '\\' && s[k] != '\"'
    ensures DoubleQuoteEnd(s, a) == DoubleQuoteEnd(s, b)
    decreases b - a
  {
    if a < b {
      PlainRun(s, a + 1, b);
    }
  }

  lemma {:induction false} OctalRun(s: string, i: nat, c: nat, d: nat)
    requires i <= |s|
    ensures forall k :: i <= k < OctalEscape(s, i, c, d).length ==> IsOctalDigit(s[k])
    decreases |s| - i
  {
    if i < |s| && IsOctalDigit(s[i]) && d < 3 {
      OctalRun(s, i + 1, c * 8 + (s[i] as int - '0' as int), d + 1);
    }
  }

  lemma {:induction false} HexRun(s: string, i: nat, c: nat)
    requires i <= |s|
    ensures forall k :: i <= k < HexEscape(s, i, c).length ==> IsHexDigit(s[k])
    decreases |s| - i
  {
    if i < |s| && IsHexDigit(s[i]) {
      HexRun(s, i + 1, c * 16 + HexValue(s[i]));
    }
  }

  lemma {:induction false} AngleAgrees(s: string, i: nat, c: nat, d: nat)
    requires i <= |s|
    ensures AngleEscape(s, i, c, d).length
         == if AngleEnd(s, i) <= |s| then AngleEnd(s, i) else |s|
    decreases |s| - i
  {
    hide CommentLength;
    if i < |s| && s[i] != '>' {
      if IsHexDigit(s[i]) {
        var c' := c * 16 + HexValue(s[i]);
        AngleAgrees(s, i + 1, if d == 1 then 0 else c', if d == 1 then 0 else d + 1);
      } else if IsCommentStart(s[i..]) {
        if i + CommentLength(s[i..]) <= |s| {
          AngleAgrees(s, i + CommentLength(s[i..]), c, d);
        }
      } else {
        AngleAgrees(s, i + 1, c, d);
      }
    }
  }

  // The scanner takes an escape in steps of its own, but leaves it in the same place.
  lemma EscapeAgrees(s: string)
    requires |s| > 1 && s[0] == '\\'
    ensures DoubleQuoteEnd(s, BackslashEnd(s, 0)) == DoubleQuoteEnd(s, ProcessBackslash(s).length)
  {
    if s[1] == '<' {
      AngleAgrees(s, 2, 0, 0);
    } else if IsOctalDigit(s[1]) {
      OctalRun(s, 2, s[1] as int - '0' as int, 1);
      PlainRun(s, 2, ProcessBackslash(s).length);
    } else if s[1] == 'x' {
      HexRun(s, 2, 0);
      PlainRun(s, 2, ProcessBackslash(s).length);
    }
  }

  lemma BackslashEndMoves(s: string, i: nat, k: nat)
    requires i + k < |s| && s[i + k] == '\\'
    ensures BackslashEnd(s, i + k) == i + BackslashEnd(s[i..], k) > i + k
  {
    hide BackslashEnd;
    assert s[i..][k..] == s[i + k..];
    BackslashEndShift(s, i + k);
    BackslashEndShift(s[i..], k);
    BackslashMoves(s, i + k);
  }

  lemma BackslashMoves(s: string, i: nat)
    requires i < |s|
    ensures BackslashEnd(s, i) > i
  {
  }

  lemma {:induction false} DoubleQuoteEndShift(s: string, i: nat, k: nat)
    requires i <= |s|
    ensures DoubleQuoteEnd(s, i + k) == i + DoubleQuoteEnd(s[i..], k)
    decreases |s| - (i + k)
  {
    hide BackslashEnd;
    if i + k < |s| {
      assert s[i..][k] == s[i + k];
      if s[i + k] == '\\' {
        BackslashEndMoves(s, i, k);
        DoubleQuoteEndShift(s, i, BackslashEnd(s[i..], k));
      } else if s[i + k] != '\"' {
        DoubleQuoteEndShift(s, i, k + 1);
      }
    }
  }

  // From any point inside double quotes, cp_skip_double_quote stops exactly where the
  // machine of cp_unquote leaves the quotes, or both reach the end.
  lemma {:induction false} DoubleQuoteAgrees(s: string)
    ensures DoubleQuoteEnd(s, 0) == ReturnLength(s, Double)
    decreases |s|
  {
    hide ProcessBackslash, BackslashEnd;
    if |s| > 0 && s[0] != '\"' {
      var n := UnquoteStep(s, Double).length;
      DoubleQuoteEndShift(s, n, 0);
      DoubleQuoteAgrees(s[n..]);
      if s[0] == '\\' && |s| > 1 {
        EscapeAgrees(s);
      } else if s[0] == '\\' {
        LastBackslash(s);
      }
    }
  }

  lemma LastBackslash(s: string)
    requires |s| == 1 && s[0] == '\\'
    ensures DoubleQuoteEnd(s, 0) == 1
  {
  }

  lemma {:induction false} SingleQuoteAgrees(s: string, i: nat)
    requires i <= |s|
    ensures SingleQuoteEnd(s, i) == i + ReturnLength(s[i..], Single)
    decreases |s| - i
  {
    if i < |s| && s[i] != '\'' {
      SingleQuoteAgrees(s, i + 1);
      assert s[i..][1..] == s[i + 1..];
    }
  }

  lemma QuoteScannersAgree(s: string)
    requires s != ""
    ensures s[0] == '\"' ==> DoubleQuoteEnd(s, 1) == 1 + ReturnLength(s[1..], Double)
    ensures s[0] == '\'' ==> SingleQuoteEnd(s, 1) == 1 + ReturnLength(s[1..], Single)
  {
    DoubleQuoteEndShift(s, 1, 0);
    DoubleQuoteAgrees(s[1..]);
    SingleQuoteAgrees(s, 1);
  }

  // ----- cp_quote -------------------------------------------------------------------

  // The characters of a C++ string are bytes.
  predicate IsBytes(s: string) {
    forall i :: 0 <= i < |s| ==> s[i] as int < 256
  }

  function OctalDigit(v: nat): char
    requires v < 8
  {
    '0' + v as char
  }

  function QuotedChar(c: char, allowNewlines: bool): (r: string)
    requires c as int < 256
    ensures r != ""
  {
    if c == '\\' || c == '\"' || c == '$' then ['\\', c]
    else if c == '\t' then ['\\', 't']
    else if c == '\r' then ['\\', 'r']
    else if c == '\n' then if allowNewlines then [c] else ['\\', 'n']
    else if c as int < 32 || c as int >= 127 then
      ['\\', OctalDigit(c as int / 64), OctalDigit(c as int / 8 % 8), OctalDigit(c as int % 8)]
    else [c]
  }

  function QuotedBody(s: string, allowNewlines: bool): string
    requires IsBytes(s)
    decreases |s|, allowNewlines
  {
    if |s| == 0 then s else QuotedChar(s[0], allowNewlines) + QuotedBody(s[1..], allowNewlines)
  }

  function QuotedText(s: string, allowNewlines: bool): string
    requires IsBytes(s)
  {
    ['\"'] + QuotedBody(s, allowNewlines) + ['\"']
  }

  function QuoteAll(v: seq<string>, allowNewlines: bool): (r: seq<string>)
    requires forall k :: 0 <= k < |v| ==> IsBytes(v[k])
    ensures |r| == |v|
  {
    seq(|v|, k requires 0 <= k < |v| => QuotedText(v[k], allowNewlines))
  }

  // A printable character, or a newline where newlines are allowed.
  predicate IsShown(c: char, allowNewlines: bool) {
    ' ' <= c <= '~' || (allowNewlines && c == '\n')
  }

  // A part of a quoted text: nothing but shown characters, and a dollar sign or double quote
  // only behind a backslash.
  predicate IsGuardedAt(t: string, k: nat, allowNewlines: bool)
    requires k < |t|
  {
    IsShown(t[k], allowNewlines) && (t[k] == '$' || t[k] == '\"' ==> k > 0 && t[k - 1] == '\\')
  }

  predicate IsGuarded(t: string, allowNewlines: bool) {
    forall k :: 0 <= k < |t| ==> IsGuardedAt(t, k, allowNewlines)
  }

  lemma QuotedCharGuarded(c: char, allowNewlines: bool)
    requires c as int < 256
    ensures IsGuarded(QuotedChar(c, allowNewlines), allowNewlines)
  {
    if |QuotedChar(c, allowNewlines)| == 4 {
      OctalShown(c as int / 64);
      OctalShown(c as int / 8 % 8);
      OctalShown(c as int % 8);
    }
  }

  lemma OctalShown(v: nat)
    requires v < 8
    ensures '0' <= OctalDigit(v) <= '7'
  {
  }

  // What cp_quote writes can be printed, spans lines only when it may, and has dollar signs
  // and double quotes only behind a backslash.
  lemma {:induction false} QuotedGuarded(s: string, allowNewlines: bool)
    requires IsBytes(s)
    ensures IsGuarded(QuotedBody(s, allowNewlines), allowNewlines)
    decreases |s|
  {
    hide QuotedChar;
    if |s| > 0 {
      QuotedCharGuarded(s[0], allowNewlines);
      QuotedGuarded(s[1..], allowNewlines);
      GuardedBoth(QuotedChar(s[0], allowNewlines), QuotedBody(s[1..], allowNewlines), allowNewlines);
    }
  }

  lemma GuardedBoth(a: string, b: string, allowNewlines: bool)
    requires IsGuarded(a, allowNewlines) && IsGuarded(b, allowNewlines)
    ensures IsGuarded(a + b, allowNewlines)
  {
    var t := a + b;
    forall k | 0 <= k < |t| ensures IsGuardedAt(t, k, allowNewlines) {
      if k < |a| {
        assert IsGuardedAt(a, k, allowNewlines);
      } else {
        assert IsGuardedAt(b, k - |a|, allowNewlines);
      }
    }
  }

  // Text without quotes, dollar signs, backslashes and characters that do not print is only
  // put between quotes.
  lemma {:induction false} QuotedPlain(s: string, allowNewlines: bool)
    requires forall k :: 0 <= k < |s| ==> IsShown(s[k], allowNewlines) && s[k] !in ['$', '\"', '\\']
    ensures IsBytes(s) && QuotedBody(s, allowNewlines) == s
    decreases |s|
  {
    if |s| > 0 {
      QuotedPlain(s[1..], allowNewlines);
      assert s == [s[0]] + s[1..];
    }
  }

  // Inside double quotes the machine reads a quoted character as the character.
  lemma UnquoteQuotedChar(c: char, allowNewlines: bool, w: string)
    requires c as int < 256
    ensures var q := QuotedChar(c, allowNewlines);
            UnquoteStep(q + w, Double) == Step(|q|, [c], Double)
  {
    var q := QuotedChar(c, allowNewlines);
    var x := q + w;
    assert x[0] == q[0];
    if |q| == 4 {
      OctalValue(x, c);
    } else if |q| == 2 {
      assert x[1] == q[1];
    }
  }

  lemma OctalParts(u: nat)
    ensures (u / 64 * 8 + u / 8 % 8) * 8 + u % 8 == u
  {
    var v := u / 8;
    assert v / 8 == u / 64;
  }

  lemma OctalValue(x: string, c: char)
    requires |x| >= 4 && c as int < 256
    requires x[1] == OctalDigit(c as int / 64) && x[2] == OctalDigit(c as int / 8 % 8)
    requires x[3] == OctalDigit(c as int % 8)
    ensures OctalEscape(x, 2, x[1] as int - '0' as int, 1) == Escape(4, [c])
  {
    var c1 := c as int / 64;
    var c2 := c1 * 8 + c as int / 8 % 8;
    assert x[1] as int - '0' as int == c1;
    assert x[2] as int - '0' as int == c as int / 8 % 8;
    assert x[3] as int - '0' as int == c as int % 8;
    assert OctalEscape(x, 2, c1, 1) == OctalEscape(x, 3, c2, 2);
    OctalParts(c as int);
    assert OctalEscape(x, 3, c2, 2) == OctalEscape(x, 4, c as int, 3);
  }

  lemma {:induction false} UnquoteQuotedBody(s: string, allowNewlines: bool, w: string)
    requires IsBytes(s)
    ensures var b := QuotedBody(s, allowNewlines) + ['\"'];
            ReturnLength(b + w, Double) == |b|
            && Unquoted(b + w, Double) == s + Unquoted(w, Outside)
    decreases |s|
  {
    hide Unquoted, ReturnLength, UnquoteStep, QuotedChar;
    var x := QuotedBody(s, allowNewlines) + ['\"'] + w;
    if |s| == 0 {
      assert x == ['\"'] + w && x[1..] == w;
      UnquoteClose(x);
      assert s + Unquoted(w, Outside) == Unquoted(w, Outside);
    } else {
      UnquoteQuotedBody(s[1..], allowNewlines, w);
      var q := QuotedChar(s[0], allowNewlines);
      var x' := QuotedBody(s[1..], allowNewlines) + ['\"'] + w;
      assert x == q + x' && x[|q|..] == x';
      UnquoteQuotedChar(s[0], allowNewlines, x');
      UnquoteUnfold(x);
      assert [s[0]] + (s[1..] + Unquoted(w, Outside)) == s + Unquoted(w, Outside);
    }
  }

  lemma UnquoteClose(x: string)
    requires x != "" && x[0] == '\"'
    ensures ReturnLength(x, Double) == 1 && Unquoted(x, Double) == Unquoted(x[1..], Outside)
  {
    assert UnquoteStep(x, Double) == Step(1, "", Outside);
    assert "" + Unquoted(x[1..], Outside) == Unquoted(x[1..], Outside);
  }

  lemma UnquoteUnfold(x: string)
    requires x != ""
    ensures var st := UnquoteStep(x, Double);
            Unquoted(x, Double) == st.text + Unquoted(x[st.length..], st.next)
            && (!st.next.Outside? ==>
                 ReturnLength(x, Double) == st.length + ReturnLength(x[st.length..], st.next))
  {
    hide UnquoteStep;
  }

  // The quoted text is one item of unquoted text, whatever follows it.
  lemma QuotedItem(s: string, allowNewlines: bool, w: string)
    requires IsBytes(s)
    ensures var q := QuotedText(s, allowNewlines);
            !IsBlank(q + w) && (q + w)[0] == '\"' && ItemLength(q + w) == |q|
  {
    hide QuotedBody, ReturnLength, Unquoted, IsBlank, ItemLength;
    var b := QuotedBody(s, allowNewlines) + ['\"'];
    UnquoteQuotedBody(s, allowNewlines, w);
    QuoteCloses(b, w);
    assert QuotedText(s, allowNewlines) == ['\"'] + b;
  }

  // Behind a quote, a text that the machine leaves the quotes with makes one item.
  lemma QuoteCloses(u: string, w: string)
    requires ReturnLength(u + w, Double) == |u|
    ensures var s := ['\"'] + u + w; !IsBlank(s) && s[0] == '\"' && ItemLength(s) == 1 + |u|
  {
    hide ReturnLength, DoubleQuoteEnd, IsBlank, ItemLength;
    var s := ['\"'] + u + w;
    assert s[1..] == u + w;
    QuoteScannersAgree(s);
    QuoteFirst(s);
  }

  lemma QuoteFirst(s: string)
    requires |s| > 0 && s[0] == '\"'
    ensures !IsBlank(s) && ItemLength(s) == DoubleQuoteEnd(s, 1)
  {
  }

  // Reading a quoted text back: it is left alone by the first pass, and stands alone in
  // front of the end or a comma.
  lemma QuotedCopied(s: string, allowNewlines: bool, comma: bool, w: string)
    requires IsBytes(s)
    requires w != "" ==> comma && w[0] == ','
    ensures var q := QuotedText(s, allowNewlines);
            PartialText(q + w, comma) == q && Stop(q + w, comma) == |q|
  {
    hide Copied, Stop, ItemLength, QuotedText;
    var q := QuotedText(s, allowNewlines);
    QuotedItem(s, allowNewlines, w);
    StartItem(q + w, comma);
    CopiedItem(q + w, Spaces(""), comma);
    assert (q + w)[|q|..] == w && (q + w)[..|q|] == q;
    WordEnd(w, comma);
    assert "" + q + "" == q;
  }

  lemma WordEnd(w: string, comma: bool)
    requires w != "" ==> comma && w[0] == ','
    ensures Copied(w, Spaces(""), comma) == Copy("", false) && Stop(w, comma) == 0
  {
    hide ItemLength;
  }

  // The invariant that the documentation of cp_quote states.
  lemma UnquoteQuote(s: string, allowNewlines: bool)
    requires IsBytes(s)
    ensures QuotedText(s, allowNewlines) != ""
    ensures UnquoteText(QuotedText(s, allowNewlines)) == s
  {
    var q := QuotedText(s, allowNewlines);
    var b := QuotedBody(s, allowNewlines) + ['\"'];
    QuotedCopied(s, allowNewlines, false, "");
    assert q + "" == q && q == ['\"'] + b && b + "" == b && q[1..] == b;
    UnquoteQuotedBody(s, allowNewlines, "");
    UnquoteOpen(q);
    assert s + Unquoted("", Outside) == s;
  }

  lemma UnquoteOpen(q: string)
    requires q != "" && q[0] == '\"'
    ensures Unquoted(q, Outside) == Unquoted(q[1..], Double)
  {
    assert UnquoteStep(q, Outside) == Step(1, "", Double);
    assert "" + Unquoted(q[1..], Double) == Unquoted(q[1..], Double);
  }

  // ----- The code -------------------------------------------------------------------

  method ProcessBackslashCode(s: string) returns (end: nat, sa: string)
    requires s != "" && s[0] == '\\'
    ensures Escape(end, sa) == ProcessBackslash(s)
  {
    if |s| == 1 {
      return 1, "\\";
    }
    var p := 2;
    match s[1]
    case '\r' => return (if 2 < |s| && s[2] == '\n' then 3 else 2), "";
    case '\n' => return 2, "";
    case 'a' => return 2, "\U{07}";
    case 'b' => return 2, "\U{08}";
    case 'f' => return 2, "\U{0C}";
    case 'n' => return 2, "\n";
    case 'r' => return 2, "\r";
    case 't' => return 2, "\t";
    case 'v' => return 2, "\U{0B}";
    case _ =>
      if IsOctalDigit(s[1]) {
        end, sa := OctalLoop(s);
      } else if s[1] == 'x' {
        end, sa := HexLoop(s);
      } else if s[1] == '<' {
        end, sa := AngleLoop(s);
      } else {
        return 2, [s[1]];
      }
  }

  method OctalLoop(s: string) returns (p: nat, sa: string)
    requires |s| > 1 && IsOctalDigit(s[1])
    ensures Escape(p, sa) == OctalEscape(s, 2, s[1] as int - '0' as int, 1)
  {
    var c: nat, d: nat := 0, 0;
    p := 1;
    while p < |s| && '0' <= s[p] <= '7' && d < 3
      invariant 1 <= p <= |s|
      invariant OctalEscape(s, p, c, d) == OctalEscape(s, 2, s[1] as int - '0' as int, 1)
    {
      c := c * 8 + (s[p] as int - '0' as int);
      p, d := p + 1, d + 1;
    }
    sa := [CharOf(c)];
  }

  method HexLoop(s: string) returns (p: nat, sa: string)
    requires |s| > 1
    ensures Escape(p, sa) == HexEscape(s, 2, 0)
  {
    var c: nat := 0;
    p := 2;
    while p < |s|
      invariant 2 <= p <= |s|
      invariant HexEscape(s, p, c) == HexEscape(s, 2, 0)
    {
      if '0' <= s[p] <= '9' {
        c := c * 16 + (s[p] as int - '0' as int);
      } else if 'A' <= s[p] <= 'F' {
        c := c * 16 + (s[p] as int - 'A' as int + 10);
      } else if 'a' <= s[p] <= 'f' {
        c := c * 16 + (s[p] as int - 'a' as int + 10);
      } else {
        break;
      }
      p := p + 1;
    }
    sa := [CharOf(c)];
  }

  method AngleLoop(s: string) returns (p: nat, sa: string)
    requires |s| > 1
    ensures Escape(p, sa) == AngleEscape(s, 2, 0, 0)
  {
    var c: nat, d: nat := 0, 0;
    p, sa := 2, "";
    while p < |s|
      invariant 2 <= p && d < 2
      invariant AngleEscape(s, 2, 0, 0)
             == Escape(AngleEscape(s, p, c, d).length, sa + AngleEscape(s, p, c, d).text)
      decreases |s| - p
    {
      if s[p] == '>' {
        return p + 1, sa;
      } else if IsHexDigit(s[p]) {
        c := c * 16 + HexValue(s[p]);
        d := d + 1;
        if d == 2 {
          sa := sa + [CharOf(c)];
          c, d := 0, 0;
        }
        p := p + 1;
      } else if IsCommentStart(s[p..]) {
        var n := SkipComment(s[p..]);
        p := p + n;
      } else {
        p := p + 1;
      }
    }
    p := |s|;
  }

  // The result of cp_unquote, seen from the middle of its loop.
  function UnquoteLoop(sa: string, x: string, start: nat, s: nat, q: State): string
    requires start <= s <= |x|
  {
    sa + x[start..s] + Unquoted(x[s..], q)
  }

  lemma UnquoteLoopStep(sa: string, x: string, start: nat, s: nat, q: State)
    requires start <= s < |x|
    ensures var st := UnquoteStep(x[s..], q);
      (UnquoteLoop(sa, x, start, s, q)
    == UnquoteLoop(sa + x[start..s] + st.text, x, s + st.length, s + st.length, st.next))
    ensures UnquoteStep(x[s..], q) == Step(1, [x[s]], q) ==>
      UnquoteLoop(sa, x, start, s, q) == UnquoteLoop(sa, x, start, s + 1, q)
  {
    hide UnquoteStep;
    var st := UnquoteStep(x[s..], q);
    assert x[s..][st.length..] == x[s + st.length..];
    var rest := Unquoted(x[s + st.length..], st.next);
    assert x[s + st.length..s + st.length] == "";
    assert sa + x[start..s] + (st.text + rest) == sa + x[start..s] + st.text + "" + rest;
    if st == Step(1, [x[s]], q) {
      assert x[start..s + 1] == x[start..s] + [x[s]];
      assert sa + x[start..s] + ([x[s]] + rest) == sa + (x[start..s] + [x[s]]) + rest;
    }
  }

  lemma UnquoteLoopEnd(sa: string, x: string, start: nat, q: State)
    requires start <= |x|
    ensures UnquoteLoop(sa, x, start, |x|, q) == sa + x[start..]
  {
    assert |x[|x|..]| == 0;
  }

  method CpUnquote(str: string) returns (text: string)
    ensures text == UnquoteText(str)
  {
    hide UnquoteLoop, UnquoteText, UncommentText, ProcessBackslash;
    var xtr := CpUncomment(str);
    var sa: string, start: nat, s: nat, q := "", 0, 0, Outside;
    UnquoteLoopStart(str, xtr);
    while s < |xtr|
      invariant start <= s <= |xtr|
      invariant UnquoteLoop(sa, xtr, start, s, q) == UnquoteText(str)
      invariant start == 0 ==> |sa| == 0
    {
      UnquoteLoopStep(sa, xtr, start, s, q);
      if xtr[s] == '\"' || xtr[s] == '\'' {
        if q == Outside {
          sa := sa + xtr[start..s];
          start := s + 1;
          q := if xtr[s] == '\"' then Double else Single;
          assert sa + "" == sa;
        } else if q == (if xtr[s] == '\"' then Double else Single) {
          sa := sa + xtr[start..s];
          start := s + 1;
          q := Outside;
          assert sa + "" == sa;
        }
        s := s + 1;
      } else if xtr[s] == '\\' && s + 1 < |xtr| && (q == Double || (q == Outside && xtr[s + 1] == '<')) {
        var n, t := ProcessBackslashCode(xtr[s..]);
        sa := sa + xtr[start..s] + t;
        start := s + n;
        s := start;
      } else {
        s := s + 1;
      }
    }
    UnquoteLoopEnd(sa, xtr, start, q);
    text := if start == 0 then xtr else sa + xtr[start..];
  }

  lemma UnquoteLoopStart(str: string, xtr: string)
    requires xtr == UncommentText(str)
    ensures UnquoteLoop("", xtr, 0, 0, Outside) == UnquoteText(str)
  {
    assert "" + xtr[0..0] + Unquoted(xtr[0..], Outside) == Unquoted(xtr, Outside);
  }

  // The result of cp_quote, seen from the middle of its loop.
  function QuoteLoop(sa: string, str: string, start: nat, s: nat, allowNewlines: bool): string
    requires IsBytes(str) && start <= s <= |str|
  {
    sa + str[start..s] + QuotedBody(str[s..], allowNewlines) + ['\"']
  }

  lemma BytesDrop(str: string, s: nat)
    requires IsBytes(str) && s <= |str|
    ensures IsBytes(str[s..]) && (s < |str| ==> str[s] as int < 256)
  {
  }

  lemma QuoteLoopStep(sa: string, str: string, start: nat, s: nat, allowNewlines: bool)
    requires IsBytes(str) && start <= s < |str|
    ensures QuoteLoop(sa, str, start, s, allowNewlines)
         == QuoteLoop(sa + str[start..s] + QuotedChar(str[s], allowNewlines), str, s + 1, s + 1,
                      allowNewlines)
    ensures QuotedChar(str[s], allowNewlines) == [str[s]] ==>
      (QuoteLoop(sa, str, start, s, allowNewlines)
    == QuoteLoop(sa, str, start, s + 1, allowNewlines))
  {
    hide QuotedChar, IsBytes;
    BytesDrop(str, s);
    BytesDrop(str, s + 1);
    assert str[s..][1..] == str[s + 1..] && str[start..s + 1] == str[start..s] + [str[s]];
    var rest, t := QuotedBody(str[s + 1..], allowNewlines), QuotedChar(str[s], allowNewlines);
    assert QuotedBody(str[s..], allowNewlines) == t + rest;
    assert sa + str[start..s] + (t + rest) == sa + str[start..s] + t + str[s + 1..s + 1] + rest;
    if t == [str[s]] {
      assert sa + str[start..s] + (t + rest) == sa + str[start..s + 1] + rest;
    }
  }

  lemma QuoteLoopEnds(sa: string, str: string, start: nat, allowNewlines: bool)
    requires IsBytes(str) && start <= |str|
    ensures QuoteLoop(sa, str, start, |str|, allowNewlines) == sa + str[start..] + ['\"']
    ensures QuoteLoop(['\"'], str, 0, 0, allowNewlines) == QuotedText(str, allowNewlines)
  {
    assert |str[|str|..]| == 0;
    assert str[start..|str|] == str[start..];
    assert sa + str[start..] + str[|str|..] == sa + str[start..];
    assert str[0..] == str && ['\"'] + str[0..0] == ['\"'];
  }

  method CpQuote(str: string, allowNewlines: bool) returns (r: string)
    requires IsBytes(str)
    ensures r == QuotedText(str, allowNewlines)
  {
    hide QuoteLoop;
    var sa: string, start: nat, s: nat := ['\"'], 0, 0;
    QuoteLoopEnds(sa, str, 0, allowNewlines);
    if |str| == 0 {
      return ['\"', '\"'];
    }
    while s < |str|
      invariant start <= s <= |str|
      invariant QuoteLoop(sa, str, start, s, allowNewlines) == QuotedText(str, allowNewlines)
    {
      QuoteLoopStep(sa, str, start, s, allowNewlines);
      var c := str[s];
      if c == '\\' || c == '\"' || c == '$' {
        sa := sa + str[start..s] + ['\\', c];
        start := s + 1;
      } else if c == '\t' {
        sa := sa + str[start..s] + ['\\', 't'];
        start := s + 1;
      } else if c == '\r' {
        sa := sa + str[start..s] + ['\\', 'r'];
        start := s + 1;
      } else if c == '\n' {
        if !allowNewlines {
          sa := sa + str[start..s] + ['\\', 'n'];
          start := s + 1;
        }
      } else if c as int < 32 || c as int >= 127 {
        var u := c as int;
        sa := sa + str[start..s]
          + ['\\', OctalDigit(u / 64), OctalDigit(u / 8 % 8), OctalDigit(u % 8)];
        start := s + 1;
      }
      s := s + 1;
    }
    QuoteLoopEnds(sa, str, start, allowNewlines);
    return sa + str[start..] + ['\"'];
  }
}
