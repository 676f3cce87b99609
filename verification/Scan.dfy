/**
 Character classes and the scanners of `lib/confparse.cc`.

 A pair of addresses [begin, end) is the text it delimits, and a returned address is the
 number of characters skipped. That number exceeds the length of the text when the
 source returns an address past `end`, which its comment scanner does.
 */
module Scan {

  // isspace() in the C locale.
  predicate IsSpace(c: char) {
    c == ' ' || c == '\t' || c == '\n' || c == '\U{0B}' || c == '\U{0C}' || c == '\r'
  }

  // String::substring over addresses: empty when the range is not inside the string.
  function Substring(s: string, first: nat, last: nat): string {
    if first < last <= |s| then s[first..last] else s[..0]
  }

  // What is left of a text after skipping n characters.
  function Drop(s: string, n: nat): string {
    s[if n <= |s| then n else |s|..]
  }

  predicate IsCommentStart(s: string) {
    |s| > 1 && s[0] == '/' && (s[1] == '/' || s[1] == '*')
  }

  // ----- Specification ------------------------------------------------------------

  function LineComment(s: string, i: nat): (n: nat)
    ensures i < n
    decreases |s| - i
  {
    if i + 1 < |s| && s[i] != '\n' && s[i] != '\r' then LineComment(s, i + 1)
    else if i + 1 < |s| && s[i] == '\r' && s[i + 1] == '\n' then i + 2
    else i + 1
  }

  function BlockComment(s: string, i: nat): (n: nat)
    ensures i < n
    decreases |s| - i
  {
    if i + 2 < |s| && (s[i] != '*' || s[i + 1] != '/') then BlockComment(s, i + 1) else i + 2
  }

  function CommentLength(s: string): (n: nat)
    requires IsCommentStart(s)
    ensures 2 < n
  {
    if s[1] == '/' then LineComment(s, 2) else BlockComment(s, 2)
  }

  // From inside \<, the end of the escape: after '>', ignoring what comments hold.
  function AngleEnd(s: string, i: nat): (n: nat)
    ensures i <= n
    decreases |s| - i
  {
    if i >= |s| then i
    else if s[i] == '>' then i + 1
    else if IsCommentStart(s[i..]) then AngleEnd(s, i + CommentLength(s[i..]))
    else AngleEnd(s, i + 1)
  }

  function BackslashEnd(s: string, i: nat): (n: nat)
    requires i < |s|
    ensures i < n
  {
    if i + 1 >= |s| then i + 1
    else if s[i + 1] == '<' then AngleEnd(s, i + 2)
    else if s[i + 1] == '\r' && i + 2 < |s| && s[i + 2] == '\n' then i + 3
    else i + 2
  }

  function DoubleQuoteEnd(s: string, i: nat): (n: nat)
    ensures i <= |s| ==> i <= n <= |s|
    decreases |s| - i
  {
    if i >= |s| then |s|
    else if s[i] == '\\' then DoubleQuoteEnd(s, BackslashEnd(s, i))
    else if s[i] == '\"' then i + 1
    else DoubleQuoteEnd(s, i + 1)
  }

  function SingleQuoteEnd(s: string, i: nat): (n: nat)
    ensures i <= |s| ==> i <= n <= |s|
    decreases |s| - i
  {
    if i >= |s| then |s|
    else if s[i] == '\'' then i + 1
    else SingleQuoteEnd(s, i + 1)
  }

  // The unit in which text outside quotes is scanned: a quoted string, an escape \<...>
  // or one character.
  predicate IsAngleStart(s: string) {
    |s| > 1 && s[0] == '\\' && s[1] == '<'
  }

  function ItemLength(s: string): (n: nat)
    requires s != ""
    ensures 1 <= n
  {
    if s[0] == '\'' then SingleQuoteEnd(s, 1)
    else if s[0] == '\"' then DoubleQuoteEnd(s, 1)
    else if IsAngleStart(s) then AngleEnd(s, 2)
    else 1
  }

  // A space or a comment.
  predicate IsBlank(s: string) {
    s != "" && (IsSpace(s[0]) || IsCommentStart(s))
  }

  function BlankLength(s: string): (n: nat)
    requires IsBlank(s)
    ensures 1 <= n
  {
    if IsSpace(s[0]) then 1 else CommentLength(s)
  }

  // The spaces and comments at the start of a text.
  function SpaceLength(s: string): (n: nat)
    decreases |s|
  {
    if IsBlank(s) then BlankLength(s) + SpaceLength(Drop(s, BlankLength(s))) else 0
  }

  // ----- What a comment is ----------------------------------------------------------

  predicate NoNewline(body: string) {
    forall i :: 0 <= i < |body| ==> body[i] != '\n' && body[i] != '\r'
  }

  // The end of a line, in front of the rest of the text.
  predicate IsLineEnd(end: string, rest: string) {
    end == ['\n'] || end == ['\r', '\n'] || (end == ['\r'] && (|rest| > 0 ==> rest[0] != '\n'))
  }

  // A line comment takes the first end of a line along.
  lemma LineCommentEnds(body: string, end: string, rest: string)
    requires NoNewline(body) && IsLineEnd(end, rest)
    ensures CommentLength(['/', '/'] + body + end + rest) == 2 + |body| + |end|
  {
    hide LineComment;
    var s, n := ['/', '/'] + body + end + rest, 2 + |body|;
    forall k | 2 <= k < n ensures s[k] != '\n' && s[k] != '\r' {
      assert s[k] == body[k - 2];
    }
    LineRun(s, 2, n);
    assert s[n] == end[0];
    assert |end| == 2 ==> s[n + 1] == end[1];
    assert |end| == 1 && |rest| > 0 ==> s[n + 1] == rest[0];
    LineStops(s, n);
  }

  // Without one it reaches to the end, and past it when there is nothing behind the slashes.
  lemma LineCommentOpen(body: string)
    requires NoNewline(body)
    ensures CommentLength(['/', '/'] + body) == if |body| == 0 then 3 else 2 + |body|
  {
    hide LineComment;
    var s := ['/', '/'] + body;
    forall k | 2 <= k < |s| ensures s[k] != '\n' && s[k] != '\r' {
      assert s[k] == body[k - 2];
    }
    var n := if |body| == 0 then 2 else |s| - 1;
    LineRun(s, 2, n);
    LineStops(s, n);
  }

  lemma {:induction false} LineRun(s: string, i: nat, j: nat)
    requires i <= j && (i < j ==> j < |s|) && forall k :: i <= k < j ==> s[k] != '\n' && s[k] != '\r'
    ensures LineComment(s, i) == LineComment(s, j)
    decreases j - i
  {
    if i < j {
      LineRun(s, i + 1, j);
    }
  }

  lemma LineStops(s: string, i: nat)
    requires i + 1 < |s| ==> s[i] == '\n' || s[i] == '\r'
    ensures LineComment(s, i) == if i + 1 < |s| && s[i] == '\r' && s[i + 1] == '\n' then i + 2 else i + 1
  {
  }

  // No star and slash, nor one together with what ends the comment.
  predicate NoStarSlash(body: string) {
    forall i :: 0 <= i < |body| ==> body[i] == '*' ==> i + 1 == |body| || body[i + 1] != '/'
  }

  // A block comment ends behind the first star and slash.
  lemma BlockCommentEnds(body: string, rest: string)
    requires NoStarSlash(body)
    ensures CommentLength(['/', '*'] + body + ['*', '/'] + rest) == 4 + |body|
  {
    hide BlockComment;
    var s, n := ['/', '*'] + body + ['*', '/'] + rest, 2 + |body|;
    assert s[n] == '*' && s[n + 1] == '/';
    forall k | 2 <= k < n ensures !(s[k] == '*' && s[k + 1] == '/') {
      assert s[k] == body[k - 2];
      assert k + 1 < n ==> s[k + 1] == body[k - 1];
    }
    BlockRun(s, 2, n);
    BlockStops(s, n);
  }

  // Without one it reaches to the end, and past it when it has less than two characters.
  lemma BlockCommentOpen(body: string)
    requires NoStarSlash(body)
    ensures CommentLength(['/', '*'] + body) == if |body| < 2 then 4 else 2 + |body|
  {
    hide BlockComment;
    var s := ['/', '*'] + body;
    var n := if |body| < 2 then 2 else |s| - 2;
    forall k | 2 <= k < n ensures !(s[k] == '*' && s[k + 1] == '/') {
      assert s[k] == body[k - 2] && s[k + 1] == body[k - 1];
    }
    BlockRun(s, 2, n);
    BlockStops(s, n);
  }

  lemma {:induction false} BlockRun(s: string, i: nat, j: nat)
    requires i <= j && (i < j ==> j + 1 < |s|) && forall k :: i <= k < j ==> !(s[k] == '*' && s[k + 1] == '/')
    ensures BlockComment(s, i) == BlockComment(s, j)
    decreases j - i
  {
    if i < j {
      BlockRun(s, i + 1, j);
    }
  }

  lemma BlockStops(s: string, i: nat)
    requires i + 2 < |s| ==> s[i] == '*' && s[i + 1] == '/'
    ensures BlockComment(s, i) == i + 2
  {
  }

  // ----- A scan that ends inside a text does not look beyond its end -----------------

  lemma {:induction false} LineCommentLocal(s: string, t: string, i: nat, n: nat)
    requires LineComment(s, i) < n <= |s| && n <= |t| && s[..n] == t[..n]
    ensures LineComment(t, i) == LineComment(s, i)
    decreases |s| - i
  {
    assert forall k :: 0 <= k < n ==> s[k] == s[..n][k] == t[k];
    if i + 1 < |s| && s[i] != '\n' && s[i] != '\r' {
      LineCommentLocal(s, t, i + 1, n);
    }
  }

  lemma {:induction false} BlockCommentLocal(s: string, t: string, i: nat, n: nat)
    requires BlockComment(s, i) < n <= |s| && n <= |t| && s[..n] == t[..n]
    ensures BlockComment(t, i) == BlockComment(s, i)
    decreases |s| - i
  {
    assert forall k :: 0 <= k < n ==> s[k] == s[..n][k] == t[k];
    if i + 2 < |s| && (s[i] != '*' || s[i + 1] != '/') {
      BlockCommentLocal(s, t, i + 1, n);
    }
  }

  lemma CommentLocal(s: string, t: string, n: nat)
    requires IsCommentStart(s) && CommentLength(s) < n <= |s| && n <= |t| && s[..n] == t[..n]
    ensures IsCommentStart(t) && CommentLength(t) == CommentLength(s)
  {
    assert forall k :: 0 <= k < n ==> s[k] == s[..n][k] == t[k];
    if s[1] == '/' {
      LineCommentLocal(s, t, 2, n);
    } else {
      BlockCommentLocal(s, t, 2, n);
    }
  }

  lemma {:induction false} AngleLocal(s: string, t: string, i: nat, n: nat)
    requires AngleEnd(s, i) <= n <= |s| && n <= |t| && s[..n] == t[..n]
    requires i < AngleEnd(s, i) < |s|
    ensures AngleEnd(t, i) == AngleEnd(s, i)
    decreases |s| - i
  {
    hide CommentLength;
    assert forall k :: 0 <= k < n ==> s[k] == s[..n][k] == t[k];
    if s[i] == '>' {
    } else if IsCommentStart(s[i..]) {
      CommentMoves(s[i..]);
      var j := i + CommentLength(s[i..]);
      AngleStops(s, j);
      assert s[i..][..n - i] == s[..n][i..] == t[i..][..n - i];
      CommentLocal(s[i..], t[i..], n - i);
      AngleLocal(s, t, j, n);
    } else {
      AngleStops(s, i + 1);
      AngleLocal(s, t, i + 1, n);
    }
  }

  // An escape that ends inside the text is not exhausted where it is entered.
  lemma AngleStops(s: string, i: nat)
    requires AngleEnd(s, i) < |s|
    ensures i < AngleEnd(s, i)
  {
  }

  lemma BackslashLocal(s: string, t: string, i: nat, n: nat)
    requires i < |s| && BackslashEnd(s, i) < n <= |s| && n <= |t| && s[..n] == t[..n]
    ensures i < BackslashEnd(t, i) == BackslashEnd(s, i)
  {
    hide AngleEnd;
    assert forall k :: 0 <= k < n ==> s[k] == s[..n][k] == t[k];
    if s[i + 1] == '<' {
      AngleStops(s, i + 2);
      AngleLocal(s, t, i + 2, n);
    }
  }

  lemma {:induction false} DoubleQuoteLocal(s: string, t: string, i: nat, n: nat)
    requires i <= |s| && DoubleQuoteEnd(s, i) <= n <= |s| && n <= |t| && s[..n] == t[..n]
    requires DoubleQuoteEnd(s, i) < |s|
    ensures DoubleQuoteEnd(t, i) == DoubleQuoteEnd(s, i)
    decreases |s| - i
  {
    hide BackslashEnd;
    assert s[i] == s[..n][i] == t[i];
    if s[i] == '\\' {
      var j := BackslashEnd(s, i);
      DoubleQuoteStops(s, j);
      BackslashLocal(s, t, i, n);
      DoubleQuoteLocal(s, t, j, n);
    } else if s[i] == '\"' {
    } else {
      DoubleQuoteStops(s, i + 1);
      DoubleQuoteLocal(s, t, i + 1, n);
    }
  }

  lemma DoubleQuoteStops(s: string, i: nat)
    requires DoubleQuoteEnd(s, i) < |s|
    ensures i < DoubleQuoteEnd(s, i)
    decreases |s| - i
  {
    if i < |s| && s[i] == '\\' {
      DoubleQuoteStops(s, BackslashEnd(s, i));
    }
  }

  lemma {:induction false} SingleQuoteLocal(s: string, t: string, i: nat, n: nat)
    requires i <= |s| && SingleQuoteEnd(s, i) <= n <= |s| && n <= |t| && s[..n] == t[..n]
    requires SingleQuoteEnd(s, i) < |s|
    ensures SingleQuoteEnd(t, i) == SingleQuoteEnd(s, i)
    decreases |s| - i
  {
    assert forall k :: 0 <= k < n ==> s[k] == s[..n][k] == t[k];
    if s[i] != '\'' {
      SingleQuoteLocal(s, t, i + 1, n);
    }
  }

  // An item that ends inside its text is the same item in front of any other text, except
  // that a lone '/' or '\' must not be given a second character that changes it.
  lemma ItemLocal(s: string, t: string)
    requires s != "" && !IsCommentStart(s) && ItemLength(s) < |s|
    requires ItemLength(s) <= |t| && s[..ItemLength(s)] == t[..ItemLength(s)]
    requires !IsCommentStart(t) && (IsAngleStart(t) ==> IsAngleStart(s))
    ensures t != "" && ItemLength(t) == ItemLength(s)
  {
    var n := ItemLength(s);
    assert s[0] == s[..n][0] == t[0];
    if s[0] == '\'' {
      SingleQuoteLocal(s, t, 1, n);
    } else if s[0] == '\"' {
      DoubleQuoteLocal(s, t, 1, n);
    } else if IsAngleStart(s) {
      AngleStops(s, 2);
      assert s[1] == s[..n][1] == t[1];
      AngleLocal(s, t, 2, n);
    }
  }

  // ----- The code -----------------------------------------------------------------

  method SkipComment(s: string) returns (p: nat)
    requires IsCommentStart(s)
    ensures p == CommentLength(s)
  {
    var end := |s|;
    if s[1] == '/' {
      p := 2;
      while p + 1 < end && s[p] != '\n' && s[p] != '\r'
        invariant 2 <= p && LineComment(s, p) == CommentLength(s)
      {
        p := p + 1;
      }
      if p + 1 < end && s[p] == '\r' && s[p + 1] == '\n' {
        p := p + 1;
      }
      p := p + 1;
    } else {
      p := 2;
      while p + 2 < end && (s[p] != '*' || s[p + 1] != '/')
        invariant 2 <= p && BlockComment(s, p) == CommentLength(s)
      {
        p := p + 1;
      }
      p := p + 2;
    }
  }

  method SkipBackslash(s: string) returns (p: nat)
    requires s != "" && s[0] == '\\'
    ensures p == BackslashEnd(s, 0)
  {
    var end := |s|;
    if 1 >= end {
      return 1;
    } else if s[1] == '<' {
      p := 2;
      while p < end
        invariant 2 <= p && AngleEnd(s, p) == AngleEnd(s, 2)
      {
        if s[p] == '>' {
          return p + 1;
        } else if s[p] == '/' && p + 1 < end && (s[p + 1] == '/' || s[p + 1] == '*') {
          var n := SkipComment(s[p..]);
          p := p + n;
        } else {
          p := p + 1;
        }
      }
      return p;
    } else if s[1] == '\r' && 2 < end && s[2] == '\n' {
      return 3;
    } else {
      return 2;
    }
  }

  method SkipDoubleQuote(s: string) returns (p: nat)
    requires s != "" && s[0] == '\"'
    ensures p == DoubleQuoteEnd(s, 1)
  {
    p := 1;
    while p < |s|
      invariant 1 <= p && DoubleQuoteEnd(s, p) == DoubleQuoteEnd(s, 1)
    {
      if s[p] == '\\' {
        var n := SkipBackslash(s[p..]);
        BackslashEndShift(s, p);
        p := p + n;
      } else if s[p] == '\"' {
        return p + 1;
      } else {
        p := p + 1;
      }
    }
    return |s|;
  }

  lemma {:induction false} AngleEndShift(s: string, i: nat, k: nat)
    requires i <= |s|
    ensures AngleEnd(s, i + k) == i + AngleEnd(s[i..], k)
    decreases |s| - (i + k)
  {
    if i + k < |s| {
      assert s[i..][k..] == s[i + k..];
      if s[i + k] == '>' {
      } else if IsCommentStart(s[i + k..]) {
        AngleEndShift(s, i, k + CommentLength(s[i + k..]));
      } else {
        AngleEndShift(s, i, k + 1);
      }
    }
  }

  lemma BackslashEndShift(s: string, i: nat)
    requires i < |s| && s[i] == '\\'
    ensures BackslashEnd(s, i) == i + BackslashEnd(s[i..], 0)
  {
    if i + 1 < |s| && s[i + 1] == '<' {
      AngleEndShift(s, i, 2);
    }
  }

  method SkipSingleQuote(s: string) returns (p: nat)
    requires s != "" && s[0] == '\''
    ensures p == SingleQuoteEnd(s, 1)
  {
    p := 1;
    while p < |s|
      invariant 1 <= p <= |s| && SingleQuoteEnd(s, p) == SingleQuoteEnd(s, 1)
    {
      if s[p] == '\'' {
        return p + 1;
      }
      p := p + 1;
    }
    return |s|;
  }

  lemma SpaceLengthStep(s: string, p: nat)
    requires p < |s|
    ensures IsSpace(s[p]) ==> SpaceLength(Drop(s, p)) == 1 + SpaceLength(Drop(s, p + 1))
    ensures !IsSpace(s[p]) && IsCommentStart(s[p..]) ==>
      SpaceLength(Drop(s, p)) == CommentLength(s[p..]) + SpaceLength(Drop(s, p + CommentLength(s[p..])))
    ensures !IsSpace(s[p]) && !IsCommentStart(s[p..]) ==> SpaceLength(Drop(s, p)) == 0
  {
    hide CommentLength;
    if IsBlank(s[p..]) {
      DropDrop(s, p, BlankLength(s[p..]));
    }
  }

  lemma DropDrop(s: string, m: nat, n: nat)
    ensures Drop(Drop(s, m), n) == Drop(s, m + n)
  {
  }

  lemma CommentMoves(s: string)
    requires IsCommentStart(s)
    ensures CommentLength(s) > 2
  {
  }

  method SkipCommentSpace(s: string) returns (p: nat)
    ensures p == SpaceLength(s)
  {
    hide SpaceLength, Drop, CommentLength, IsCommentStart;
    DropAll(s);
    p := 0;
    while p < |s|
      invariant SpaceLength(s) == p + SpaceLength(Drop(s, p))
      decreases |s| - p
    {
      SpaceLengthStep(s, p);
      if IsSpace(s[p]) {
        p := p + 1;
      } else if IsCommentStart(s[p..]) {
        var n := SkipComment(s[p..]);
        CommentMoves(s[p..]);
        p := p + n;
      } else {
        return;
      }
    }
    DropEnd(s, p);
  }

  lemma DropAll(s: string)
    ensures Drop(s, 0) == s
  {
  }

  lemma DropEnd(s: string, p: nat)
    requires p >= |s|
    ensures SpaceLength(Drop(s, p)) == 0
  {
  }

  // The four cases of an item, as the loops over unquoted text tell them apart.
  method SkipItem(s: string) returns (p: nat)
    requires s != ""
    ensures p == ItemLength(s)
  {
    if s[0] == '\'' {
      p := SkipSingleQuote(s);
    } else if s[0] == '\"' {
      p := SkipDoubleQuote(s);
    } else if s[0] == '\\' && 1 < |s| && s[1] == '<' {
      p := SkipBackslash(s);
    } else {
      p := 1;
    }
  }
}
