/**
 `partial_uncomment` and `cp_uncomment` of `lib/confparse.cc`: the text up to the end or
 to an unquoted comma, with outer spaces removed and comments replaced by one space.
 */
module Uncomment {
  import opened Scan

  // What stands between the last item and the scanner: nothing yet, spaces to be kept, or
  // a comment, which closes the piece of text copied so far.
  datatype Gap = Start | Spaces(text: string) | Closed

  // What is appended to the piece copied so far. It is `lost` with everything in its piece
  // when an escape \<...> runs past the end of the string: String::substring() then finds
  // its range outside the string.
  datatype Copy = Copy(tail: string, lost: bool)

  function Copied(s: string, gap: Gap, comma: bool): Copy
    decreases |s|, comma
  {
    if s == "" then Copy("", false)
    else if IsBlank(s) then Copied(Drop(s, BlankLength(s)), GapAfter(gap, s), comma)
    else if comma && s[0] == ',' then Copy("", false)
    else if ItemLength(s) > |s| then
      if gap.Closed? then Copy(" ", false) else Copy("", true)
    else
      var r := Copied(s[ItemLength(s)..], Spaces(""), comma);
      if !r.lost then Copy(Sep(gap) + s[..ItemLength(s)] + r.tail, false)
      else if gap.Closed? then Copy(" ", false)
      else Copy("", true)
  }

  function GapAfter(gap: Gap, s: string): Gap
    requires IsBlank(s)
  {
    match gap
    case Start => Start
    case Spaces(text) => if IsSpace(s[0]) then Spaces(text + [s[0]]) else Closed
    case Closed => Closed
  }

  function Sep(gap: Gap): string {
    match gap
    case Start => ""
    case Spaces(text) => text
    case Closed => " "
  }

  // The characters passed before the end or the comma.
  function Stop(s: string, comma: bool): nat
    decreases |s|, comma
  {
    if s == "" then 0
    else if IsBlank(s) then BlankLength(s) + Stop(Drop(s, BlankLength(s)), comma)
    else if comma && s[0] == ',' then 0
    else ItemLength(s) + Stop(Drop(s, ItemLength(s)), comma)
  }

  function Text(c: Copy): string {
    if c.lost then "" else c.tail
  }

  function PartialText(s: string, comma: bool): string {
    Text(Copied(s, Start, comma))
  }

  function UncommentText(s: string): string {
    PartialText(s, false)
  }

  // Some escape \<...> outside quotes is not closed, and a comment inside it reaches past
  // the end of the string.
  predicate Overruns(s: string, comma: bool)
    decreases |s|, comma
  {
    if s == "" then false
    else if IsBlank(s) then Overruns(Drop(s, BlankLength(s)), comma)
    else if comma && s[0] == ',' then false
    else ItemLength(s) > |s| || Overruns(Drop(s, ItemLength(s)), comma)
  }

  predicate AllSpaces(s: string) {
    forall i :: 0 <= i < |s| ==> IsSpace(s[i])
  }

  ghost predicate ValidGap(gap: Gap) {
    gap.Spaces? ==> AllSpaces(gap.text)
  }

  lemma {:induction false} CopiedSpaces(sp: string, t: string, text: string, comma: bool)
    requires AllSpaces(sp)
    ensures Copied(sp + t, Spaces(text), comma) == Copied(t, Spaces(text + sp), comma)
    ensures Stop(sp + t, comma) == |sp| + Stop(t, comma)
    decreases |sp|
  {
    var x := sp + t;
    if sp == "" {
      assert x == t && text + sp == text;
    } else {
      assert IsBlank(x) && BlankLength(x) == 1 && Drop(x, 1) == sp[1..] + t;
      CopiedSpaces(sp[1..], t, text + [sp[0]], comma);
      assert text + [sp[0]] + sp[1..] == text + sp;
    }
  }

  // ----- Scanning the output again --------------------------------------------------

  lemma {:induction false} OverrunFacts(s: string, gap: Gap, comma: bool)
    ensures Copied(s, gap, comma).lost ==> Overruns(s, comma)
    ensures Overruns(s, comma) ==> Stop(s, comma) >= |s|
    decreases |s|
  {
    if IsBlank(s) {
      OverrunFacts(Drop(s, BlankLength(s)), GapAfter(gap, s), comma);
    } else if s != "" && !(comma && s[0] == ',') && ItemLength(s) <= |s| {
      OverrunFacts(s[ItemLength(s)..], Spaces(""), comma);
    }
  }

  // A copied tail that does not start with a space starts with the text itself.
  lemma {:induction false} FirstChar(s: string, gap: Gap, comma: bool)
    requires ValidGap(gap) && !gap.Start?
    ensures var t := Copied(s, gap, comma).tail;
            t == "" || IsSpace(t[0]) || (s != "" && !IsBlank(s) && t[0] == s[0])
    decreases |s|
  {
    if IsBlank(s) {
      SeparatorFirst(Drop(s, BlankLength(s)), GapAfter(gap, s), comma);
    }
  }

  // After a space or a comment, a copied tail that is not empty starts with a space.
  lemma {:induction false} SeparatorFirst(s: string, gap: Gap, comma: bool)
    requires ValidGap(gap) && Sep(gap) != ""
    ensures var t := Copied(s, gap, comma).tail; t == "" || IsSpace(t[0])
    decreases |s|
  {
    if IsBlank(s) {
      SeparatorFirst(Drop(s, BlankLength(s)), GapAfter(gap, s), comma);
    }
  }

  // What remains of a copied tail when it is copied again: an overrun leaves a space at
  // its end, which the second copy removes.
  function Kept(tail: string, overrun: bool): string {
    if overrun && tail != "" then tail[..|tail| - 1] else tail
  }

  // A copied tail, in front of what may follow it, is copied whole.
  ghost predicate Rescans(t: string, w: string, overrun: bool, comma: bool) {
    Copied(t + w, Spaces(""), comma) == Copy(Kept(t, overrun), false)
    && Stop(t + w, comma) == |t|
  }

  lemma {:induction false} Rescan(s: string, gap: Gap, comma: bool, w: string)
    requires ValidGap(gap) && !gap.Start?
    requires !Copied(s, gap, comma).lost
    requires w != "" ==> comma && w[0] == ',' && Stop(s, comma) < |s|
    ensures Overruns(s, comma) ==> Copied(s, gap, comma).tail != ""
    ensures Rescans(Copied(s, gap, comma).tail, w, Overruns(s, comma), comma)
    ensures !IsBlank(s) && gap == Spaces("") && Copied(s, gap, comma).tail != "" ==>
      !IsBlank(Copied(s, gap, comma).tail + w)
    decreases |s|
  {
    hide ItemLength, CommentLength, BlankLength, IsCommentStart, Rescans;
    var t := Copied(s, gap, comma).tail;
    OverrunFacts(s, gap, comma);
    if IsBlank(s) {
      Rescan(Drop(s, BlankLength(s)), GapAfter(gap, s), comma, w);
    } else if s == "" || (comma && s[0] == ',') {
      RescanNothing(t, w, false, comma);
    } else if ItemLength(s) > |s| {
      RescanSpace(t, w, comma);
    } else {
      var s' := s[ItemLength(s)..];
      OverrunFacts(s', Spaces(""), comma);
      if Copied(s', Spaces(""), comma).lost {
        RescanSpace(t, w, comma);
      } else {
        Rescan(s', Spaces(""), comma, w);
        RescanItem(s, gap, comma, w);
      }
    }
  }

  lemma RescanNothing(t: string, w: string, overrun: bool, comma: bool)
    requires t == "" && (w != "" ==> comma && w[0] == ',')
    ensures Rescans(t, w, overrun, comma)
  {
    assert t + w == w;
  }

  lemma RescanSpace(t: string, w: string, comma: bool)
    requires t == " " && w == ""
    ensures Rescans(t, w, true, comma)
  {
    hide ItemLength, CommentLength;
    var x := t + w;
    assert x == " ";
    CopiedSpaces(x, w, w, comma);
    assert x + w == x;
  }

  lemma RescanItem(s: string, gap: Gap, comma: bool, w: string)
    requires ValidGap(gap) && !gap.Start?
    requires s != "" && !IsBlank(s) && !(comma && s[0] == ',') && ItemLength(s) <= |s|
    requires ItemLength(s) == |s| ==> w == ""
    requires w != "" ==> w[0] == ','
    requires var r := Copied(s[ItemLength(s)..], Spaces(""), comma);
             !r.lost && Rescans(r.tail, w, Overruns(s[ItemLength(s)..], comma), comma)
             && (Overruns(s[ItemLength(s)..], comma) ==> r.tail != "")
    ensures Rescans(Copied(s, gap, comma).tail, w, Overruns(s, comma), comma)
    ensures Sep(gap) == "" ==> !IsBlank(Copied(s, gap, comma).tail + w)
  {
    hide Copied, Stop, Overruns, ItemLength, IsBlank;
    var n := ItemLength(s);
    var r', overrun := Copied(s[n..], Spaces(""), comma).tail, Overruns(s[n..], comma);
    var x, t, sep := s[..n] + (r' + w), Copied(s, gap, comma).tail, Sep(gap);
    assert x[0] == s[0] && !IsBlank(x) && ItemLength(x) == n && x[n..] == r' + w by {
      FirstChar(s[n..], Spaces(""), comma);
      assert n == |s| ==> s[n..] == [] && r' == "" by { CopiedEmpty(s[n..], comma); }
      ItemAgain(s, r' + w);
    }
    assert t == sep + s[..n] + r' && Overruns(s, comma) == overrun by {
      CopiedItem(s, gap, comma);
    }
    assert t + w == sep + x by {
      Regroup(sep, s[..n], r', w);
    }
    assert AllSpaces(sep);
    assert Copied(t + w, Spaces(""), comma) == Copied(x, Spaces(sep), comma)
        && Stop(t + w, comma) == |sep| + Stop(x, comma) by {
      CopiedSpaces(sep, x, "", comma);
      assert "" + sep == sep;
    }
    assert Copied(x, Spaces(sep), comma) == Copy(sep + s[..n] + Kept(r', overrun), false)
        && Stop(x, comma) == n + |r'| by {
      CopiedItem(x, Spaces(sep), comma);
      assert x[..n] == s[..n];
    }
    assert sep + s[..n] + Kept(r', overrun) == Kept(t, overrun);
    assert sep == "" ==> sep + x == x;
  }

  lemma CopiedEmpty(s: string, comma: bool)
    ensures s == "" ==> Copied(s, Spaces(""), comma) == Copy("", false)
  {
  }

  lemma Regroup(a: string, b: string, c: string, d: string)
    ensures a + b + c + d == a + (b + (c + d))
  {
  }

  // One item, copied by itself.
  lemma CopiedItem(s: string, gap: Gap, comma: bool)
    requires s != "" && !IsBlank(s) && !(comma && s[0] == ',') && ItemLength(s) <= |s|
    ensures var r := Copied(s[ItemLength(s)..], Spaces(""), comma);
            !r.lost ==>
              Copied(s, gap, comma) == Copy(Sep(gap) + s[..ItemLength(s)] + r.tail, false)
    ensures Stop(s, comma) == ItemLength(s) + Stop(s[ItemLength(s)..], comma)
    ensures Overruns(s, comma) == Overruns(s[ItemLength(s)..], comma)
  {
    hide ItemLength, CommentLength, BlankLength, IsCommentStart;
  }

  // An item is the same item in front of what the copy puts behind it.
  lemma ItemAgain(s: string, rest: string)
    requires s != "" && !IsBlank(s) && ItemLength(s) <= |s|
    requires ItemLength(s) == |s| ==> rest == ""
    requires ItemLength(s) < |s| && rest != "" ==>
      IsSpace(rest[0]) || rest[0] == ',' || rest[0] == s[ItemLength(s)]
    ensures var x := s[..ItemLength(s)] + rest;
            x[0] == s[0] && !IsBlank(x) && ItemLength(x) == ItemLength(s)
            && x[ItemLength(s)..] == rest
  {
    var n := ItemLength(s);
    var x := s[..n] + rest;
    if n == |s| {
      assert x == s;
    } else {
      assert s[..n] == x[..n];
      if n > 1 {
        assert x[1] == s[1];
      }
      ItemLocal(s, x);
    }
  }

  // ----- cp_uncomment ---------------------------------------------------------------

  lemma {:induction false} SkipStart(s: string, comma: bool)
    ensures var s0 := Drop(s, SpaceLength(s));
            !IsBlank(s0)
            && Copied(s, Start, comma) == Copied(s0, Spaces(""), comma)
            && Stop(s, comma) == SpaceLength(s) + Stop(s0, comma)
            && Overruns(s, comma) == Overruns(s0, comma)
    decreases |s|
  {
    hide Copied, Stop, Overruns, IsBlank, BlankLength;
    if IsBlank(s) {
      var n := BlankLength(s);
      CopiedBlank(s, comma);
      SkipStart(Drop(s, n), comma);
      DropDrop(s, n, SpaceLength(Drop(s, n)));
    } else {
      assert Drop(s, 0) == s;
      StartItem(s, comma);
    }
  }

  lemma CopiedBlank(s: string, comma: bool)
    requires IsBlank(s)
    ensures var s' := Drop(s, BlankLength(s));
            Copied(s, Start, comma) == Copied(s', Start, comma)
            && Stop(s, comma) == BlankLength(s) + Stop(s', comma)
            && Overruns(s, comma) == Overruns(s', comma)
  {
    hide ItemLength, BlankLength;
  }

  lemma StartItem(s: string, comma: bool)
    requires !IsBlank(s)
    ensures Copied(s, Start, comma) == Copied(s, Spaces(""), comma)
  {
    hide ItemLength, CommentLength, BlankLength, IsCommentStart, IsBlank;
  }

  // The output read again, in front of what may follow an argument.
  lemma RescanText(s: string, comma: bool, w: string)
    requires w != "" ==> comma && w[0] == ',' && Stop(s, comma) < |s|
    ensures PartialText(PartialText(s, comma) + w, comma)
         == Kept(PartialText(s, comma), Overruns(s, comma))
    ensures Stop(PartialText(s, comma) + w, comma) == |PartialText(s, comma)|
  {
    hide Copied, ItemLength, CommentLength, BlankLength, IsCommentStart;
    var t := PartialText(s, comma);
    OverrunFacts(s, Start, comma);
    SkipStart(s, comma);
    var s0 := Drop(s, SpaceLength(s));
    if t == "" {
      StartNothing(t + w, comma);
      assert t + w == w;
    } else {
      Rescan(s0, Spaces(""), comma, w);
      TextFirst(s0, comma);
      FirstChar(t + w, Spaces(""), comma);
      SkipStart(t + w, comma);
      assert SpaceLength(t + w) == 0 && Drop(t + w, 0) == t + w;
    }
  }

  lemma StartNothing(w: string, comma: bool)
    requires w != "" ==> comma && w[0] == ','
    ensures Copied(w, Start, comma) == Copy("", false) && Stop(w, comma) == 0
  {
  }

  lemma TextFirst(s: string, comma: bool)
    requires !IsBlank(s)
    ensures var t := Copied(s, Spaces(""), comma).tail; t == "" || (s != "" && t[0] == s[0])
  {
  }

  // A comment stands behind an item, in front of any item that overruns the string. `item`
  // says whether an item came before.
  predicate CommentBehindItem(s: string, item: bool, comma: bool)
    decreases |s|, item, comma
  {
    if s == "" then false
    else if IsBlank(s) then (item && !IsSpace(s[0])) || CommentBehindItem(Drop(s, BlankLength(s)), item, comma)
    else if comma && s[0] == ',' then false
    else ItemLength(s) <= |s| && CommentBehindItem(Drop(s, ItemLength(s)), true, comma)
  }

  // Only spaces and comments stand in front of the end or the comma.
  predicate NoItem(s: string, comma: bool)
    decreases |s|, comma
  {
    if s == "" then true
    else if IsBlank(s) then NoItem(Drop(s, BlankLength(s)), comma)
    else comma && s[0] == ','
  }

  // An overrun takes the piece before it along, unless a comment has closed that piece.
  lemma {:induction false} LostIff(s: string, gap: Gap, comma: bool)
    requires !gap.Start? && Overruns(s, comma)
    ensures Copied(s, gap, comma).lost <==> !gap.Closed? && !CommentBehindItem(s, true, comma)
    decreases |s|
  {
    hide ItemLength, CommentLength;
    if IsBlank(s) {
      LostIff(Drop(s, BlankLength(s)), GapAfter(gap, s), comma);
    } else if ItemLength(s) <= |s| {
      LostIff(Drop(s, ItemLength(s)), Spaces(""), comma);
    }
  }

  lemma {:induction false} LeftIff(s: string, comma: bool)
    requires Overruns(s, comma)
    ensures PartialText(s, comma) != "" <==> CommentBehindItem(s, false, comma)
    decreases |s|
  {
    hide ItemLength, CommentLength;
    if IsBlank(s) {
      LeftIff(Drop(s, BlankLength(s)), comma);
    } else if ItemLength(s) <= |s| {
      LostIff(Drop(s, ItemLength(s)), Spaces(""), comma);
    }
  }

  // Nothing is copied exactly when there is no item, or all of them are lost to an overrun.
  lemma {:induction false} NothingCopiedIff(s: string, comma: bool)
    ensures PartialText(s, comma) == ""
       <==> (NoItem(s, comma) || (Overruns(s, comma) && !CommentBehindItem(s, false, comma)))
    decreases |s|
  {
    hide ItemLength, CommentLength, CommentBehindItem;
    if Overruns(s, comma) {
      LeftIff(s, comma);
      ItemOverruns(s, comma);
    } else if IsBlank(s) {
      NothingCopiedIff(Drop(s, BlankLength(s)), comma);
    } else if s != "" && !(comma && s[0] == ',') {
      OverrunFacts(s[ItemLength(s)..], Spaces(""), comma);
    }
  }

  lemma {:induction false} ItemOverruns(s: string, comma: bool)
    requires Overruns(s, comma)
    ensures !NoItem(s, comma)
    decreases |s|
  {
    hide ItemLength, CommentLength;
    if IsBlank(s) {
      ItemOverruns(Drop(s, BlankLength(s)), comma);
    }
  }

  // cp_uncomment is idempotent, except where it drops a piece of text that overruns the
  // string and so leaves the space that stands for a comment before it.
  lemma UncommentIdempotent(s: string)
    ensures UncommentText(UncommentText(s)) == UncommentText(s)
       <==> !(Overruns(s, false) && CommentBehindItem(s, false, false))
  {
    hide PartialText, CommentBehindItem;
    RescanOnce(s);
    if Overruns(s, false) {
      LeftIff(s, false);
    }
  }

  lemma RescanOnce(s: string)
    ensures UncommentText(UncommentText(s)) == UncommentText(s)
       <==> !(Overruns(s, false) && UncommentText(s) != "")
  {
    RescanText(s, false, "");
    assert UncommentText(s) + "" == UncommentText(s);
  }

  // For one: x, an empty comment, and an escape with a comment in it that nothing closes.
  lemma UncommentNotIdempotent(s: string)
    requires s == ['x', '/', '*', '*', '/', '\\', '<', '/', '*']
    ensures UncommentText(UncommentText(s)) != UncommentText(s)
  {
    hide Copied, Overruns, UncommentText, ItemLength, AngleEnd, BlockComment, LineComment;
    var t := s[1..];
    var u := t[4..];
    OpenEscape(u);
    EmptyComment(t, u);
    PlainCharacter(s, t);
    RescanOnce(s);
  }

  lemma OpenEscape(u: string)
    requires u == ['\\', '<', '/', '*']
    ensures Overruns(u, false) && Copied(u, Closed, false) == Copy([' '], false)
  {
    assert IsCommentStart(u[2..]) && BlockComment(u[2..], 2) == 4;
    assert AngleEnd(u, 2) == AngleEnd(u, 6) == 6;
  }

  lemma EmptyComment(t: string, u: string)
    requires t == ['/', '*', '*', '/'] + u
    requires Overruns(u, false) && Copied(u, Closed, false) == Copy([' '], false)
    ensures Overruns(t, false) && Copied(t, Spaces(""), false) == Copy([' '], false)
  {
    hide Copied, Overruns;
    assert BlockComment(t, 2) == 4 && Drop(t, 4) == u;
    CopiedComment(t);
  }

  lemma CopiedComment(t: string)
    requires IsBlank(t) && !IsSpace(t[0])
    ensures Copied(t, Spaces(""), false) == Copied(Drop(t, BlankLength(t)), Closed, false)
    ensures Overruns(t, false) == Overruns(Drop(t, BlankLength(t)), false)
  {
  }

  lemma PlainCharacter(s: string, t: string)
    requires s == ['x'] + t
    requires Overruns(t, false) && Copied(t, Spaces(""), false) == Copy([' '], false)
    ensures Overruns(s, false) && UncommentText(s) != ""
  {
    assert ItemLength(s) == 1 && s[1..] == t && Drop(s, 1) == t;
    assert |Copied(s, Start, false).tail| > 0;
  }

  // ----- The code -------------------------------------------------------------------

  // The result, given what has been emitted, the piece being copied and what is left.
  function Finish(out: string, piece: string, rest: Copy): string {
    if rest.lost then out else out + piece + rest.tail
  }

  // The result seen from the middle of the loop: `left` and `right` delimit the piece.
  function LoopText(str: string, s: nat, sa: string, left: nat, right: nat, closed: bool, comma: bool): string {
    var gap := if closed then Closed else Spaces(Substring(str, right, s));
    Finish(sa, Substring(str, left, right), Copied(Drop(str, s), gap, comma))
  }

  lemma LoopBlank(str: string, s: nat, sa: string, left: nat, right: nat, closed: bool, comma: bool)
    requires left <= right <= s < |str| && IsBlank(str[s..])
    ensures LoopText(str, s, sa, left, right, closed, comma)
         == LoopText(str, s + BlankLength(str[s..]), sa, left, right, closed || !IsSpace(str[s]), comma)
    ensures s + Stop(Drop(str, s), comma)
         == s + BlankLength(str[s..]) + Stop(Drop(str, s + BlankLength(str[s..])), comma)
  {
    hide ItemLength, CommentLength, IsCommentStart;
    DropDrop(str, s, BlankLength(str[s..]));
    if IsSpace(str[s]) {
      assert Substring(str, right, s + 1) == Substring(str, right, s) + [str[s]];
    }
  }

  // The loop behind an item that ends at `next`.
  function ItemText(str: string, s: nat, next: nat, sa: string, left: nat, right: nat, closed: bool, comma: bool): string {
    if closed then LoopText(str, next, sa + Substring(str, left, right) + " ", s, next, false, comma)
    else LoopText(str, next, sa, left, next, false, comma)
  }

  lemma LoopItem(str: string, s: nat, sa: string, left: nat, right: nat, closed: bool, comma: bool)
    requires left <= right <= s < |str|
    requires !IsBlank(str[s..]) && !(comma && str[s] == ',')
    ensures LoopText(str, s, sa, left, right, closed, comma)
         == ItemText(str, s, s + ItemLength(str[s..]), sa, left, right, closed, comma)
    ensures s + Stop(Drop(str, s), comma)
         == s + ItemLength(str[s..]) + Stop(Drop(str, s + ItemLength(str[s..])), comma)
  {
    hide ItemLength, IsBlank, Copied, Stop, LoopText, ItemText;
    ItemUnfold(str[s..], if closed then Closed else Spaces(Substring(str, right, s)), comma);
    DropDrop(str, s, ItemLength(str[s..]));
    if s + ItemLength(str[s..]) <= |str| {
      LoopItemInside(str, s, sa, left, right, closed, comma);
    } else {
      LoopItemOver(str, s, sa, left, right, closed, comma);
    }
  }

  lemma LoopItemInside(str: string, s: nat, sa: string, left: nat, right: nat, closed: bool, comma: bool)
    requires left <= right <= s < |str| && s + ItemLength(str[s..]) <= |str|
    requires !IsBlank(str[s..]) && !(comma && str[s] == ',')
    ensures LoopText(str, s, sa, left, right, closed, comma)
         == ItemText(str, s, s + ItemLength(str[s..]), sa, left, right, closed, comma)
  {
    hide ItemLength, IsBlank, Copied, Finish, Sep, Drop, Substring;
    var s' := s + ItemLength(str[s..]);
    ItemUnfold(str[s..], if closed then Closed else Spaces(Substring(str, right, s)), comma);
    Slices(str, left, right, s, s');
    var r := Copied(str[s'..], Spaces(""), comma);
    FinishItem(sa, Substring(str, left, right), Substring(str, right, s), str[s..s'], r);
  }

  lemma Slices(str: string, left: nat, right: nat, s: nat, next: nat)
    requires left <= right <= s < next <= |str|
    ensures Drop(str, s) == str[s..] && Drop(str, next) == str[next..] == str[s..][next - s..]
    ensures str[s..][..next - s] == str[s..next] == Substring(str, s, next) && Substring(str, next, next) == ""
    ensures Substring(str, left, next) == Substring(str, left, right) + Substring(str, right, s) + str[s..next]
  {
    assert str[left..right] + str[right..s] + str[s..next] == str[left..next];
  }

  lemma LoopItemOver(str: string, s: nat, sa: string, left: nat, right: nat, closed: bool, comma: bool)
    requires left <= right <= s < |str| < s + ItemLength(str[s..])
    requires !IsBlank(str[s..]) && !(comma && str[s] == ',')
    ensures LoopText(str, s, sa, left, right, closed, comma)
         == ItemText(str, s, s + ItemLength(str[s..]), sa, left, right, closed, comma)
  {
    hide ItemLength, IsBlank, Copied, Finish, Sep;
    var s' := s + ItemLength(str[s..]);
    ItemUnfold(str[s..], if closed then Closed else Spaces(Substring(str, right, s)), comma);
    NothingLeft(Drop(str, s'), Spaces(Substring(str, s', s')), comma);
    FinishOverrun(sa, Substring(str, left, right));
    assert Substring(str, left, s') == "" == Substring(str, s, s');
  }

  lemma FinishItem(out: string, piece: string, sep: string, item: string, r: Copy)
    ensures Finish(out + piece + " ", item, r)
         == Finish(out, piece, Copy(if r.lost then " " else Sep(Closed) + item + r.tail, false))
    ensures Finish(out, piece + sep + item, r)
         == Finish(out, piece, if r.lost then Copy("", true)
                               else Copy(Sep(Spaces(sep)) + item + r.tail, false))
  {
    assert out + piece + (" " + item + r.tail) == out + piece + " " + item + r.tail;
    assert out + piece + (sep + item + r.tail) == out + (piece + sep + item) + r.tail;
  }

  lemma FinishOverrun(out: string, piece: string)
    ensures Finish(out + piece + " ", "", Copy("", false)) == Finish(out, piece, Copy(" ", false))
    ensures Finish(out, "", Copy("", false)) == Finish(out, piece, Copy("", true))
  {
  }

  lemma ItemUnfold(s: string, gap: Gap, comma: bool)
    requires s != "" && !IsBlank(s) && !(comma && s[0] == ',')
    ensures var n := ItemLength(s);
            Stop(s, comma) == n + Stop(Drop(s, n), comma)
            && Copied(s, gap, comma)
            == if n > |s| then (if gap.Closed? then Copy(" ", false) else Copy("", true))
               else
                 var r := Copied(s[n..], Spaces(""), comma);
                 if !r.lost then Copy(Sep(gap) + s[..n] + r.tail, false)
                 else if gap.Closed? then Copy(" ", false)
                 else Copy("", true)
  {
    hide ItemLength, IsBlank;
  }

  lemma NothingLeft(s: string, gap: Gap, comma: bool)
    ensures |s| == 0 ==> Copied(s, gap, comma) == Copy("", false) && Stop(s, comma) == 0
  {
    hide ItemLength;
  }

  // At the end of the text, or at the comma, the piece is the last one.
  lemma LoopEnd(str: string, s: nat, sa: string, left: nat, right: nat, closed: bool, comma: bool)
    requires s < |str| ==> comma && str[s] == ','
    ensures LoopText(str, s, sa, left, right, closed, comma) == sa + Substring(str, left, right)
    ensures Stop(Drop(str, s), comma) == 0
  {
    hide ItemLength;
  }

  method PartialUncomment(str: string, i: nat, comma: bool) returns (text: string, commaPos: nat)
    requires i <= |str|
    ensures text == PartialText(str[i..], comma)
    ensures commaPos == i + Stop(str[i..], comma)
  {
    hide LoopText, Stop, Copied, ItemLength, IsCommentStart, CommentLength, Drop, Substring, SpaceLength, PartialText;
    var skipped := SkipCommentSpace(str[i..]);
    var s: nat := i + skipped;
    var sa: string, left: nat, right: nat, closed := "", s, s, false;
    LoopStart(str, i, s, comma);
    while s < |str|
      invariant left <= right <= s && (right <= |str| || |str| <= s)
      invariant LoopText(str, s, sa, left, right, closed, comma) == PartialText(str[i..], comma)
      invariant s + Stop(Drop(str, s), comma) == i + Stop(str[i..], comma)
      decreases |str| - s
    {
      if IsSpace(str[s]) {
        LoopBlank(str, s, sa, left, right, closed, comma);
        s := s + 1;
      } else if IsCommentStart(str[s..]) {
        LoopBlank(str, s, sa, left, right, closed, comma);
        var n := SkipComment(str[s..]);
        s := s + n;
        closed := true;
      } else if comma && str[s] == ',' {
        break;
      } else {
        LoopItem(str, s, sa, left, right, closed, comma);
        if closed {
          sa := sa + Substring(str, left, right) + " ";
          left := s;
          closed := false;
        }
        var n: nat := SkipItem(str[s..]);
        s := s + n;
        right := s;
      }
    }
    LoopEnd(str, s, sa, left, right, closed, comma);
    text := if sa == "" then Substring(str, left, right) else sa + Substring(str, left, right);
    commaPos := s;
  }

  lemma LoopStart(str: string, i: nat, s: nat, comma: bool)
    requires i <= |str| && s == i + SpaceLength(str[i..])
    ensures LoopText(str, s, "", s, s, false, comma) == PartialText(str[i..], comma)
    ensures s + Stop(Drop(str, s), comma) == i + Stop(str[i..], comma)
  {
    hide ItemLength, IsCommentStart, Copied, Stop, SpaceLength, Drop;
    SkipStart(str[i..], comma);
    DropFrom(str, i, s - i);
    var r := Copied(Drop(str, s), Spaces(""), comma);
    assert Substring(str, s, s) == "";
    assert "" + "" + r.tail == r.tail;
  }

  lemma DropFrom(str: string, i: nat, n: nat)
    requires i <= |str|
    ensures Drop(str[i..], n) == Drop(str, i + n)
  {
  }

  method CpUncomment(str: string) returns (text: string)
    ensures text == UncommentText(str)
  {
    var end;
    text, end := PartialUncomment(str, 0, false);
  }
}
