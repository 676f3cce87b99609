/**
 What backslash escapes stand for in `cp_process_backslash` and `cp_unquote` of
 `lib/confparse.cc`, in terms of the bytes that are written with them.
 */
module Escapes {
  import opened Scan
  import opened Uncomment
  import opened Quote
  import opened Comments
  import IntegerText

  // ----- \<...> -------------------------------------------------------------------------

  // What may stand between hex digits: other characters, and comments.
  datatype Fill = Plain(c: char) | Note(text: string)

  ghost predicate IsFill(f: Fill) {
    match f
    case Plain(c) => !IsHexDigit(c) && c != '>' && c != '/'
    case Note(text) => IsNote(text)
  }

  ghost predicate AreFills(fs: seq<Fill>) {
    forall k :: 0 <= k < |fs| ==> IsFill(fs[k])
  }

  function FillText(fs: seq<Fill>): string
    decreases |fs|
  {
    if |fs| == 0 then [] else OneFill(fs[0]) + FillText(fs[1..])
  }

  function OneFill(f: Fill): string {
    match f
    case Plain(c) => [c]
    case Note(text) => text
  }

  // A hex digit, in either case, and what stands in front of it.
  datatype Digit = Digit(before: seq<Fill>, value: nat, upper: bool)

  ghost predicate AreHex(ds: seq<Digit>) {
    forall k :: 0 <= k < |ds| ==> ds[k].value < 16 && AreFills(ds[k].before)
  }

  function DigitsText(ds: seq<Digit>): string
    requires forall k :: 0 <= k < |ds| ==> ds[k].value < 16
    decreases |ds|
  {
    if |ds| == 0 then []
    else FillText(ds[0].before) + ([IntegerText.DigitText(ds[0].value, ds[0].upper)] + DigitsText(ds[1..]))
  }

  // The escape without its \<.
  function AngleTail(ds: seq<Digit>, after: seq<Fill>, rest: string): string
    requires forall k :: 0 <= k < |ds| ==> ds[k].value < 16
  {
    DigitsText(ds) + (FillText(after) + (['>'] + rest))
  }

  function AngleText(ds: seq<Digit>, after: seq<Fill>): string
    requires forall k :: 0 <= k < |ds| ==> ds[k].value < 16
  {
    ['\\', '<'] + AngleTail(ds, after, [])
  }

  // Two digits for every byte, the upper half first.
  ghost predicate Prints(ds: seq<Digit>, v: string) {
    |ds| == 2 * |v| && forall k :: 0 <= k < |v| ==>
      16 * ds[2 * k].value + ds[2 * k + 1].value == v[k] as int
  }

  // The byte that a pending digit makes with the next one, and the bytes behind it.
  function BytesOf(pending: seq<nat>, ds: seq<Digit>): string
    requires |pending| <= 1 && (|pending| == 1 ==> pending[0] < 16)
    requires forall k :: 0 <= k < |ds| ==> ds[k].value < 16
    decreases |ds|
  {
    if |ds| == 0 then []
    else if |pending| == 0 then BytesOf([ds[0].value], ds[1..])
    else [(16 * pending[0] + ds[0].value) as char] + BytesOf([], ds[1..])
  }

  lemma {:induction false} PrintedBytes(ds: seq<Digit>, v: string)
    requires AreHex(ds) && Prints(ds, v)
    ensures BytesOf([], ds) == v
    decreases |v|
  {
    if |v| > 0 {
      var more := ds[1..][1..];
      assert more == ds[2..];
      forall k | 0 <= k < |v| - 1 ensures 16 * more[2 * k].value + more[2 * k + 1].value == v[1..][k] as int {
        assert 16 * ds[2 * (k + 1)].value + ds[2 * (k + 1) + 1].value == v[k + 1] as int;
      }
      PrintedBytes(more, v[1..]);
      assert 16 * ds[2 * 0].value + ds[2 * 0 + 1].value == v[0] as int;
      assert BytesOf([], ds) == BytesOf([ds[0].value], ds[1..]);
      assert [v[0]] + v[1..] == v;
    }
  }

  // Where a text goes on behind a part of it.
  lemma Behind(s: string, i: nat, here: string, more: string)
    requires i <= |s| && s[i..] == here + more
    ensures i + |here| <= |s| && s[i + |here|..] == more && (|here| > 0 ==> i < |s| && s[i] == here[0])
  {
    assert |s| - i == |here| + |more|;
    assert s[i + |here|..] == s[i..][|here|..];
    assert |here| > 0 ==> s[i] == s[i..][0];
  }

  lemma {:induction false} FillSkip(s: string, i: nat, fs: seq<Fill>, t: string, c: nat, d: nat)
    requires i <= |s| && AreFills(fs) && s[i..] == FillText(fs) + t
    ensures i + |FillText(fs)| <= |s| && s[i + |FillText(fs)|..] == t
    ensures AngleEscape(s, i, c, d) == AngleEscape(s, i + |FillText(fs)|, c, d)
    decreases |fs|
  {
    hide IsFill, AngleEscape, FillText, OneFill;
    Behind(s, i, FillText(fs), t);
    FillParts(fs, t);
    if |fs| > 0 {
      var here, more := OneFill(fs[0]), FillText(fs[1..]) + t;
      FillFirst(s, i, fs[0], here, more, c, d);
      Behind(s, i, here, more);
      FillSkip(s, i + |here|, fs[1..], t, c, d);
    }
  }

  lemma FillParts(fs: seq<Fill>, t: string)
    ensures |fs| == 0 ==> FillText(fs) == []
    ensures |fs| > 0 ==> |FillText(fs)| == |OneFill(fs[0])| + |FillText(fs[1..])|
                         && FillText(fs) + t == OneFill(fs[0]) + (FillText(fs[1..]) + t)
  {
    hide OneFill, FillText;
    FillUnfold(fs);
    if |fs| > 0 {
      Associate(OneFill(fs[0]), FillText(fs[1..]), t);
    }
  }

  lemma FillUnfold(fs: seq<Fill>)
    ensures FillText(fs) == if |fs| == 0 then [] else OneFill(fs[0]) + FillText(fs[1..])
  {
    hide OneFill;
  }

  lemma Associate(a: string, b: string, t: string)
    ensures a + b + t == a + (b + t) && |a + b| == |a| + |b|
  {
  }

  lemma FillFirst(s: string, i: nat, f: Fill, here: string, more: string, c: nat, d: nat)
    requires i <= |s| && IsFill(f) && here == OneFill(f)
    requires s[i..] == here + more
    ensures i + |here| <= |s| && AngleEscape(s, i, c, d) == AngleEscape(s, i + |here|, c, d)
  {
    hide CommentLength, IsNote, IsComment;
    assert |s| - i == |here| + |more|;
    match f
    case Plain(x) =>
      assert s[i] == s[i..][0] == x;
    case Note(text) =>
      NoteIsComment(text, more);
      CommentIsBlank(text, more);
      assert s[i] == s[i..][0] == '/';
  }

  lemma {:induction false} AngleAt(s: string, i: nat, ds: seq<Digit>, after: seq<Fill>, rest: string, pending: seq<nat>)
    requires i <= |s| && AreHex(ds) && AreFills(after) && s[i..] == AngleTail(ds, after, rest)
    requires |pending| <= 1 && (|pending| == 1 ==> pending[0] < 16)
    ensures AngleEscape(s, i, if |pending| == 0 then 0 else pending[0], |pending|)
         == Escape(|s| - |rest|, BytesOf(pending, ds))
    decreases |ds|
  {
    hide AreFills, FillText, AngleEscape, AngleTail, DigitsText, IntegerText.DigitText;
    var c := if |pending| == 0 then 0 else pending[0];
    if |ds| == 0 {
      TailEnd(ds, after, rest);
      FillSkip(s, i, after, ['>'] + rest, c, |pending|);
      var j := i + |FillText(after)|;
      Behind(s, j, ['>'], rest);
      AngleStep(s, j, c, |pending|);
    } else {
      var tail, digit := AngleTail(ds[1..], after, rest), IntegerText.DigitText(ds[0].value, ds[0].upper);
      TailDigit(ds, after, rest);
      FillSkip(s, i, ds[0].before, [digit] + tail, c, |pending|);
      var j := i + |FillText(ds[0].before)|;
      Behind(s, j, [digit], tail);
      HexDigitText(ds[0].value, ds[0].upper);
      AngleStep(s, j, c, |pending|);
      AngleAt(s, j + 1, ds[1..], after, rest, if |pending| == 0 then [ds[0].value] else []);
    }
  }

  lemma TailEnd(ds: seq<Digit>, after: seq<Fill>, rest: string)
    requires |ds| == 0
    ensures AngleTail(ds, after, rest) == FillText(after) + (['>'] + rest)
  {
    hide FillText;
  }

  lemma TailDigit(ds: seq<Digit>, after: seq<Fill>, rest: string)
    requires |ds| > 0 && AreHex(ds)
    ensures AngleTail(ds, after, rest)
         == FillText(ds[0].before)
            + ([IntegerText.DigitText(ds[0].value, ds[0].upper)] + AngleTail(ds[1..], after, rest))
  {
    hide FillText, IntegerText.DigitText;
    var end := FillText(after) + (['>'] + rest);
    var digit, more := [IntegerText.DigitText(ds[0].value, ds[0].upper)], DigitsText(ds[1..]);
    assert DigitsText(ds) == FillText(ds[0].before) + (digit + more);
    Regrouped(FillText(ds[0].before), digit, more, end);
  }

  lemma Regrouped(a: string, b: string, c: string, d: string)
    ensures a + (b + c) + d == a + (b + (c + d))
  {
  }

  lemma AngleStep(s: string, i: nat, c: nat, d: nat)
    requires i < |s|
    ensures s[i] == '>' ==> AngleEscape(s, i, c, d) == Escape(i + 1, "")
    ensures IsHexDigit(s[i]) && d != 1 ==>
      AngleEscape(s, i, c, d) == AngleEscape(s, i + 1, c * 16 + HexValue(s[i]), d + 1)
    ensures IsHexDigit(s[i]) && d == 1 ==>
      var e := AngleEscape(s, i + 1, 0, 0);
      AngleEscape(s, i, c, d) == Escape(e.length, [CharOf(c * 16 + HexValue(s[i]))] + e.text)
  {
  }

  lemma HexDigitText(d: nat, upper: bool)
    requires d < 16
    ensures var c := IntegerText.DigitText(d, upper); IsHexDigit(c) && HexValue(c) == d
  {
  }

  // Bytes written as hex digits, in either case and with other characters and comments
  // between them, are what the escape stands for.
  lemma AngleDecodes(ds: seq<Digit>, after: seq<Fill>, v: string, rest: string)
    requires AreHex(ds) && AreFills(after) && Prints(ds, v)
    ensures var e := AngleText(ds, after); ProcessBackslash(e + rest) == Escape(|e|, v)
  {
    hide AngleEscape, AngleTail;
    var e := AngleText(ds, after);
    var s := e + rest;
    TailRest(ds, after, rest);
    assert s == ['\\', '<'] + AngleTail(ds, after, rest);
    assert s[0] == '\\' && s[1] == '<' && s[2..] == AngleTail(ds, after, rest);
    AngleAt(s, 2, ds, after, rest, []);
    PrintedBytes(ds, v);
  }

  lemma TailRest(ds: seq<Digit>, after: seq<Fill>, rest: string)
    requires AreHex(ds)
    ensures AngleTail(ds, after, []) + rest == AngleTail(ds, after, rest)
    ensures |AngleTail(ds, after, [])| > 0
  {
    hide FillText, DigitsText;
    var a, b := DigitsText(ds), FillText(after);
    assert a + (b + (['>'] + [])) + rest == a + (b + (['>'] + rest));
  }

  // ----- The other escapes --------------------------------------------------------------

  // The control characters from 7 to 13 have letters of their own.
  lemma LetterDecodes(k: nat, rest: string)
    requires k < 7
    ensures ProcessBackslash(['\\', ['a', 'b', 't', 'n', 'v', 'f', 'r'][k]] + rest) == Escape(2, [(7 + k) as char])
  {
  }

  // A newline is skipped, and every other character stands for itself.
  lemma CharacterDecodes(c: char, rest: string)
    requires c !in ['a', 'b', 't', 'n', 'v', 'f', 'r', 'x', '<', '\r'] && !('0' <= c <= '7')
    ensures ProcessBackslash(['\\', c] + rest) == Escape(2, if c == '\n' then [] else [c])
    ensures ProcessBackslash(['\\', '\r', '\n'] + rest) == Escape(3, [])
    ensures (|rest| > 0 ==> rest[0] != '\n') ==> ProcessBackslash(['\\', '\r'] + rest) == Escape(2, [])
  {
    assert (['\\', c] + rest)[1] == c;
    assert |rest| > 0 ==> (['\\', '\r'] + rest)[2] == rest[0];
  }

  lemma HexIsDigit(c: char)
    ensures IsHexDigit(c) <==> IntegerText.IsDigit(c, 16)
    ensures IsHexDigit(c) ==> HexValue(c) == IntegerText.DigitIn(c, 16)
    ensures IsOctalDigit(c) <==> IntegerText.IsDigit(c, 8)
    ensures IsOctalDigit(c) ==> c as int - '0' as int == IntegerText.DigitIn(c, 8)
  {
  }

  lemma ValuePush(t: string, c: char, b: nat)
    requires IntegerText.IsDigit(c, b)
    ensures IntegerText.Value(t + [c], b) == IntegerText.Value(t, b) * b + IntegerText.DigitIn(c, b)
  {
    assert (t + [c])[..|t|] == t;
  }

  // Any number of hex digits behind \x stand for their value, up to its low eight bits.
  lemma {:induction false} HexAt(s: string, i: nat, t: string, n: nat)
    requires 2 <= i <= n <= |s| && (forall k :: i <= k < n ==> IsHexDigit(s[k])) && t == s[2..i]
    requires n < |s| ==> !IsHexDigit(s[n])
    ensures HexEscape(s, i, IntegerText.Value(t, 16)) == Escape(n, [CharOf(IntegerText.Value(s[2..n], 16))])
    decreases n - i
  {
    hide IntegerText.Value;
    if i < n {
      HexIsDigit(s[i]);
      ValuePush(t, s[i], 16);
      assert s[2..i + 1] == t + [s[i]];
      HexAt(s, i + 1, t + [s[i]], n);
    }
  }

  lemma HexDecodes(t: string, rest: string)
    requires (forall k :: 0 <= k < |t| ==> IsHexDigit(t[k])) && (|rest| > 0 ==> !IsHexDigit(rest[0]))
    ensures ProcessBackslash(['\\', 'x'] + t + rest)
         == Escape(2 + |t|, [(IntegerText.Value(t, 16) % 256) as char])
  {
    hide HexEscape, IntegerText.Value, IntegerText.DigitIn, IsHexDigit;
    var s, n := ['\\', 'x'] + t + rest, 2 + |t|;
    HexText(t, rest);
    IntegerText.ValueOfNone(s[2..2], 16);
    HexAt(s, 2, s[2..2], n);
    HexStarts(s);
  }

  lemma HexText(t: string, rest: string)
    requires forall k :: 0 <= k < |t| ==> IsHexDigit(t[k])
    ensures var s, n := ['\\', 'x'] + t + rest, 2 + |t|;
            s[0] == '\\' && s[1] == 'x' && s[2..n] == t
            && (forall k :: 2 <= k < n ==> IsHexDigit(s[k])) && (|rest| > 0 ==> s[n] == rest[0])
  {
    hide IsHexDigit;
    var s, n := ['\\', 'x'] + t + rest, 2 + |t|;
    assert forall k :: 2 <= k < n ==> s[k] == t[k - 2];
  }

  lemma HexStarts(s: string)
    requires |s| > 1 && s[0] == '\\' && s[1] == 'x'
    ensures ProcessBackslash(s) == HexEscape(s, 2, 0)
  {
    hide HexEscape;
  }

  lemma {:induction false} OctalAt(s: string, i: nat, t: string, n: nat)
    requires 1 <= i <= n <= |s| && n <= 4 && (forall k :: i <= k < n ==> IsOctalDigit(s[k])) && t == s[1..i]
    requires n < |s| && n < 4 ==> !IsOctalDigit(s[n])
    ensures OctalEscape(s, i, IntegerText.Value(t, 8), i - 1) == Escape(n, [CharOf(IntegerText.Value(s[1..n], 8))])
    decreases n - i
  {
    hide IntegerText.Value;
    if i < n {
      HexIsDigit(s[i]);
      ValuePush(t, s[i], 8);
      assert s[1..i + 1] == t + [s[i]];
      OctalAt(s, i + 1, t + [s[i]], n);
    }
  }

  // One to three octal digits stand for their value, up to its low eight bits.
  lemma OctalDecodes(t: string, rest: string)
    requires 1 <= |t| <= 3 && forall k :: 0 <= k < |t| ==> IsOctalDigit(t[k])
    requires |t| < 3 && |rest| > 0 ==> !IsOctalDigit(rest[0])
    ensures ProcessBackslash(['\\'] + t + rest) == Escape(1 + |t|, [(IntegerText.Value(t, 8) % 256) as char])
  {
    hide OctalEscape, IntegerText.Value, IntegerText.DigitIn, IsOctalDigit;
    var s, n := ['\\'] + t + rest, 1 + |t|;
    OctalText(t, rest);
    IntegerText.ValueOfOne(t[0], 8);
    HexIsDigit(t[0]);
    OctalAt(s, 2, s[1..2], n);
    OctalStarts(s);
  }

  lemma OctalText(t: string, rest: string)
    requires 1 <= |t| <= 3 && forall k :: 0 <= k < |t| ==> IsOctalDigit(t[k])
    ensures var s, n := ['\\'] + t + rest, 1 + |t|;
            s[0] == '\\' && s[1] == t[0] && s[1..n] == t && s[1..2] == [t[0]]
            && (forall k :: 1 <= k < n ==> IsOctalDigit(s[k])) && (|rest| > 0 ==> s[n] == rest[0])
  {
    hide IsOctalDigit;
    var s, n := ['\\'] + t + rest, 1 + |t|;
    assert forall k :: 1 <= k < n ==> s[k] == t[k - 1];
  }

  lemma OctalStarts(s: string)
    requires |s| > 1 && s[0] == '\\' && IsOctalDigit(s[1])
    ensures ProcessBackslash(s) == OctalEscape(s, 2, IntegerText.DigitIn(s[1], 8), 1)
  {
    hide OctalEscape;
  }

  // ----- In strings ---------------------------------------------------------------------

  // Between double quotes, an escape is read as what it stands for.
  lemma QuotedEscape(e: string, v: string)
    requires |e| > 1 && e[0] == '\\' && ProcessBackslash(e + ['\"']) == Escape(|e|, v)
    ensures UnquoteText(['\"'] + e + ['\"']) == v
  {
    hide ProcessBackslash, Unquoted, ReturnLength;
    var q, x := ['\"'] + e + ['\"'], e + ['\"'];
    assert q[1..] == x && x[0] == '\\' && x[|e|..] == ['\"'];
    assert UnquoteStep(x, Double) == Step(|e|, v, Double);
    UnquoteUnfold(x);
    UnquoteClose(['\"']);
    UnquoteNone();
    assert ['\"'][1..] == [];
    assert ReturnLength(x, Double) == |x| && Unquoted(x, Double) == v + [];
    QuoteScannersAgree(q);
    OneItem(q);
    UnquoteOpen(q);
  }

  lemma UnquoteNone()
    ensures Unquoted([], Outside) == []
  {
    var s: string := [];
    assert |s| == 0 && Unquoted(s, Outside) == s;
  }

  lemma OneItem(q: string)
    requires |q| > 0 && !IsBlank(q) && ItemLength(q) == |q|
    ensures UncommentText(q) == q
  {
    hide Copied, ItemLength, IsBlank;
    StartItem(q, false);
    CopiedItem(q, Spaces(""), false);
    CopiedEmpty(q[|q|..], false);
    assert q[..|q|] == q && "" + q + "" == q;
    assert q[|q|..] == "";
  }

  // Outside of quotes, \<...> is, and the other escapes are left alone.
  lemma AngleOutside(ds: seq<Digit>, after: seq<Fill>, v: string)
    requires AreHex(ds) && AreFills(after) && Prints(ds, v)
    ensures UnquoteText(AngleText(ds, after)) == v
    ensures UnquoteText(['\"'] + AngleText(ds, after) + ['\"']) == v
  {
    hide ProcessBackslash, AngleEscape, AngleEnd, ItemLength, Unquoted, UncommentText, AreFills, Prints, AngleText;
    var e := AngleText(ds, after);
    AngleStarts(ds, after);
    AngleDecodes(ds, after, v, ['\"']);
    QuotedEscape(e, v);
    AngleDecodes(ds, after, v, []);
    assert e + [] == e;
    AngleDecodes(ds, after, v, [' ']);
    AngleLength(e, v);
    OneItem(e);
    assert UnquoteStep(e, Outside) == Step(|e|, v, Outside);
    assert e[|e|..] == [];
    UnquoteNone();
    UnquoteOnce(e, v);
    assert v + [] == v;
  }

  lemma AngleStarts(ds: seq<Digit>, after: seq<Fill>)
    requires AreHex(ds)
    ensures var e := AngleText(ds, after); |e| > 2 && IsAngleStart(e) && !IsBlank(e)
  {
  }

  lemma AngleLength(e: string, v: string)
    requires |e| > 2 && IsAngleStart(e) && ProcessBackslash(e + [' ']) == Escape(|e|, v)
    ensures ItemLength(e) == |e|
  {
    hide AngleEscape, AngleEnd;
    var s := e + [' '];
    AngleAgrees(s, 2, 0, 0);
    assert s[0] == e[0] && s[1] == e[1];
    assert s[..|e|] == e[..|e|];
    AngleLocal(s, e, 2, |e|);
  }

  lemma UnquoteOnce(e: string, v: string)
    requires |e| > 0 && UnquoteStep(e, Outside) == Step(|e|, v, Outside) && Unquoted(e[|e|..], Outside) == []
    ensures Unquoted(e, Outside) == v + []
  {
    hide UnquoteStep;
  }
}
