/**
 Sequence numbers of TCP, as section 3.4 of RFC 9293 compares them and the SEQ macros of
 `include/clicknet/tcp.h` do: 32-bit words that wrap around.
 */
module SequenceNumbers {
  import opened Widths

  type Word = x: int | 0 <= x < TWO32

  function Sub32(a: Word, b: Word): (r: Word)
    ensures Add32(b, r) == a
  {
    if a >= b then a - b else a - b + TWO32
  }

  function ToWord(x: int): Word {
    x % TWO32
  }

  // (int)(a - b).
  function Ahead(a: Word, b: Word): (d: int)
    ensures -TWO31 <= d < TWO31 && (d == a - b || d == a - b + TWO32 || d == a - b - TWO32)
  {
    if a - b >= TWO31 then a - b - TWO32 else if a - b < -TWO31 then a - b + TWO32 else a - b
  }

  predicate SeqLt(a: Word, b: Word) {
    Ahead(a, b) < 0
  }

  lemma AheadOf(x: int, y: int)
    requires -TWO31 <= x - y < TWO31
    ensures Ahead(ToWord(x), ToWord(y)) == x - y
  {
    var a, b := x / TWO32, y / TWO32;
    assert x == TWO32 * a + ToWord(x) && y == TWO32 * b + ToWord(y);
  }

  lemma ToWordAdd(x: int, y: int)
    ensures ToWord(ToWord(x) + y) == ToWord(x + y)
  {
  }
}
