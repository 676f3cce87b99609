/**
 `Bitvector` of `lib/bitvector.cc`: vectors of bits in 32-bit words. A word is the sequence
 of its bits, the least significant one first.
 */
module Bitvectors {
  import opened BitText
  import opened IntegerText

  type Word = w: seq<bool> | |w| == 32 witness Falses(32)

  const ZERO: Word := Falses(32)

  // ----- Words --------------------------------------------------------------------------

  function Fill(bit: bool): (r: Word)
    ensures forall k :: 0 <= k < 32 ==> r[k] == bit
  {
    seq(32, _ => bit)
  }

  function Not(a: Word): (r: Word)
    ensures forall k :: 0 <= k < 32 ==> r[k] == !a[k]
  {
    seq(32, k requires 0 <= k < 32 => !a[k])
  }

  function Or(a: Word, b: Word): (r: Word)
    ensures forall k :: 0 <= k < 32 ==> r[k] == (a[k] || b[k])
  {
    seq(32, k requires 0 <= k < 32 => a[k] || b[k])
  }

  function And(a: Word, b: Word): (r: Word)
    ensures forall k :: 0 <= k < 32 ==> r[k] == (a[k] && b[k])
  {
    seq(32, k requires 0 <= k < 32 => a[k] && b[k])
  }

  // w << n and w >> n.
  function Left(w: Word, n: nat): (r: Word)
    ensures forall k :: 0 <= k < 32 ==> r[k] == (k >= n && w[k - n])
  {
    seq(32, k requires 0 <= k < 32 => k >= n && w[k - n])
  }

  function Right(w: Word, n: nat): (r: Word)
    ensures forall k :: 0 <= k < 32 ==> r[k] == (k + n < 32 && w[k + n])
  {
    seq(32, k requires 0 <= k < 32 => k + n < 32 && w[k + n])
  }

  // (1 << n) - 1.
  function LowMask(n: nat): (r: Word)
    ensures forall k :: 0 <= k < 32 ==> r[k] == (k < n)
  {
    seq(32, k requires 0 <= k < 32 => k < n)
  }

  // ----- Vectors of words ---------------------------------------------------------------

  function WordCount(max: int): (n: nat)
    requires max >= -1
    ensures 32 * n - 32 <= max < 32 * n
  {
    (max + 32) / 32
  }

  predicate At(ws: seq<Word>, i: nat)
    requires i < 32 * |ws|
  {
    ws[i / 32][i % 32]
  }

  function BitsOf(ws: seq<Word>, max: int): (bits: seq<bool>)
    requires -1 <= max < 32 * |ws|
    ensures |bits| == max + 1 && forall i :: 0 <= i <= max ==> bits[i] == At(ws, i)
  {
    seq(max + 1, i requires 0 <= i <= max => At(ws, i))
  }

  // No bit behind the last one is set in a word that holds bits.
  ghost predicate Clean(ws: seq<Word>, max: int)
    requires max >= -1
  {
    WordCount(max) <= |ws| && |ws| > 0
    && forall i :: max < i < 32 * WordCount(max) ==> !At(ws, i)
  }

  function OrBits(a: seq<bool>, b: seq<bool>): (r: seq<bool>)
    ensures |r| == if |a| < |b| then |b| else |a|
  {
    seq(if |a| < |b| then |b| else |a|, i requires i >= 0 => (i < |a| && a[i]) || (i < |b| && b[i]))
  }

  function Resized(bits: seq<bool>, n: nat): (r: seq<bool>)
    ensures |r| == n
  {
    seq(n, i requires i >= 0 => i < |bits| && bits[i])
  }

  function Flipped(bits: seq<bool>): (r: seq<bool>)
    ensures |r| == |bits|
  {
    seq(|bits|, i requires 0 <= i < |bits| => !bits[i])
  }

  // The bits of b that are not in a.
  function Difference(b: seq<bool>, a: seq<bool>): (r: seq<bool>)
    requires |a| == |b|
    ensures |r| == |b|
  {
    seq(|b|, i requires 0 <= i < |b| => b[i] && !a[i])
  }

  function WithRange(bits: seq<bool>, start: nat, end: int, value: bool): (r: seq<bool>)
    ensures |r| == |bits|
  {
    seq(|bits|, i requires 0 <= i < |bits| => if start <= i < end then value else bits[i])
  }

  // The loop that documents offset_or, from its step i on.
  function OffsetOrLoop(a: seq<bool>, b: seq<bool>, offset: nat, i: nat): (r: seq<bool>)
    requires offset + |b| <= |a|
    ensures |r| == |a|
    decreases |b| - i, offset
  {
    if i >= |b| then a else OffsetOrLoop(a[offset + i := a[offset + i] || b[i]], b, offset, i + 1)
  }

  // What an empty operand with something in its first word adds.
  function StaleOr(a: seq<bool>, x: Word, offset: nat): (r: seq<bool>)
    ensures |r| == |a|
  {
    seq(|a|, i requires 0 <= i < |a| => a[i] || (offset <= i < offset + 32 && x[i - offset]))
  }

  lemma {:induction false} OffsetOrLoopAt(a: seq<bool>, b: seq<bool>, offset: nat, i: nat, k: nat)
    requires offset + |b| <= |a| && k < |a|
    ensures OffsetOrLoop(a, b, offset, i)[k] == (a[k] || (offset + i <= k < offset + |b| && b[k - offset]))
    decreases |b| - i
  {
    if i < |b| {
      OffsetOrLoopAt(a[offset + i := a[offset + i] || b[i]], b, offset, i + 1, k);
    }
  }

  // ----- offset_or on words -------------------------------------------------------------

  // What the first n words of xs, shifted by s bits, add to word w.
  function Added(xs: seq<Word>, s: nat, n: nat, w: int): (r: Word)
    requires n <= |xs| && s < 32
  {
    Or(if 0 <= w < n then Left(xs[w], s) else ZERO,
       if 0 < s && 0 < w <= n then Right(xs[w - 1], 32 - s) else ZERO)
  }

  lemma AtWord(ws: seq<Word>, w: nat, k: nat)
    requires w < |ws| && k < 32
    ensures At(ws, 32 * w + k) == ws[w][k]
  {
    assert (32 * w + k) / 32 == w;
  }

  lemma AddedBit(xs: seq<Word>, s: nat, w: int, k: nat)
    requires s < 32 && k < 32
    ensures var j := 32 * w + k - s;
            Added(xs, s, |xs|, w)[k] == (0 <= j < 32 * |xs| && At(xs, j))
  {
    hide At, Left, Right, Or, Added;
    var j := 32 * w + k - s;
    AddedWord(xs, s, w, k);
    if k >= s {
      assert 0 <= j < 32 * |xs| <==> 0 <= w < |xs|;
      if 0 <= w < |xs| {
        AtWord(xs, w, k - s);
      }
    } else {
      assert 0 <= j < 32 * |xs| <==> 0 < w <= |xs|;
      if 0 < w <= |xs| {
        AtWord(xs, w - 1, k + 32 - s);
      }
    }
  }

  lemma AddedWord(xs: seq<Word>, s: nat, w: int, k: nat)
    requires s < 32 && k < 32
    ensures Added(xs, s, |xs|, w)[k]
         == if k >= s then 0 <= w < |xs| && xs[w][k - s] else 0 < w <= |xs| && xs[w - 1][k + 32 - s]
  {
  }

  // The words of ws below the limit are those of was with the first n words of xs added.
  ghost predicate AddedSoFar(was: seq<Word>, ws: seq<Word>, xs: seq<Word>, s: nat, first: nat, n: nat, limit: nat)
    requires n <= |xs| && s < 32
  {
    |ws| == |was| >= limit
    && forall w :: 0 <= w < limit ==> ws[w] == Or(was[w], Added(xs, s, n, w - first))
  }

  function AddLeft(ws: seq<Word>, x: Word, s: nat, at: nat): (r: seq<Word>)
    requires at < |ws|
    ensures |r| == |ws|
  {
    ws[at := Or(ws[at], Left(x, s))]
  }

  function AddRight(ws: seq<Word>, x: Word, s: nat, at: nat): (r: seq<Word>)
    requires s < 32 && at < |ws|
    ensures |r| == |ws|
  {
    if s > 0 then ws[at := Or(ws[at], Right(x, 32 - s))] else ws
  }

  lemma AddWord(was: seq<Word>, ws: seq<Word>, xs: seq<Word>, s: nat, first: nat, n: nat, limit: nat)
    requires n < |xs| && s < 32 && first + n < limit && AddedSoFar(was, ws, xs, s, first, n, limit)
    ensures var left := AddLeft(ws, xs[n], s, first + n);
            AddedSoFar(was, if first + n + 1 < limit then AddRight(left, xs[n], s, first + n + 1) else left,
                       xs, s, first, n + 1, limit)
  {
    hide Added, Left, Right, Or;
    var left := AddLeft(ws, xs[n], s, first + n);
    var ws' := if first + n + 1 < limit then AddRight(left, xs[n], s, first + n + 1) else left;
    forall w | 0 <= w < limit ensures ws'[w] == Or(was[w], Added(xs, s, n + 1, w - first)) {
      assert ws[w] == Or(was[w], Added(xs, s, n, w - first));
      AddWordAt(was[w], xs, s, n, w - first);
    }
  }

  lemma AddWordAt(was: Word, xs: seq<Word>, s: nat, n: nat, w: int)
    requires n < |xs| && s < 32
    ensures var before, after := Or(was, Added(xs, s, n, w)), Or(was, Added(xs, s, n + 1, w));
            after == (if w == n then Or(before, Left(xs[n], s))
                      else if w == n + 1 && s > 0 then Or(before, Right(xs[n], 32 - s))
                      else before)
  {
    hide Added, Left, Right, Or;
    AddedStep(xs, s, n, w);
    OrAssoc(was, Added(xs, s, n, w), Left(xs[n], s));
    if s > 0 {
      OrAssoc(was, Added(xs, s, n, w), Right(xs[n], 32 - s));
    }
  }

  // A word behind the limit does not matter.
  lemma AddBehind(was: seq<Word>, ws: seq<Word>, xs: seq<Word>, s: nat, first: nat, limit: nat)
    requires 0 < |xs| && s < 32 && limit <= first < |ws| && AddedSoFar(was, ws, xs, s, first, 0, limit)
    ensures AddedSoFar(was, AddLeft(ws, xs[0], s, first), xs, s, first, 1, limit)
  {
    hide Left, Right, Or;
    forall w | 0 <= w < limit ensures AddLeft(ws, xs[0], s, first)[w] == Or(was[w], Added(xs, s, 1, w - first)) {
      assert ws[w] == Or(was[w], Added(xs, s, 0, w - first));
    }
  }

  lemma OrAssoc(a: Word, b: Word, c: Word)
    ensures Or(Or(a, b), c) == Or(a, Or(b, c))
  {
  }

  lemma AddedStep(xs: seq<Word>, s: nat, n: nat, w: int)
    requires n < |xs| && s < 32
    ensures var before, after := Added(xs, s, n, w), Added(xs, s, n + 1, w);
            after == (if w == n then Or(before, Left(xs[n], s))
                      else if w == n + 1 && s > 0 then Or(before, Right(xs[n], 32 - s))
                      else before)
  {
  }

  lemma NoneAdded(ws: seq<Word>, xs: seq<Word>, s: nat, first: nat, limit: nat)
    requires s < 32 && limit <= |ws|
    ensures AddedSoFar(ws, ws, xs, s, first, 0, limit)
  {
  }

  // Words of xs that start behind the limit add nothing below it.
  lemma AllAdded(was: seq<Word>, ws: seq<Word>, xs: seq<Word>, s: nat, first: nat, n: nat, limit: nat)
    requires n <= |xs| && s < 32 && AddedSoFar(was, ws, xs, s, first, n, limit)
    requires n == |xs| || first + n >= limit
    ensures AddedSoFar(was, ws, xs, s, first, |xs|, limit)
  {
    forall w | 0 <= w < limit ensures ws[w] == Or(was[w], Added(xs, s, |xs|, w - first)) {
      assert ws[w] == Or(was[w], Added(xs, s, n, w - first));
    }
  }

  // ----- Operations on words are operations on bits ----------------------------------------

  lemma ResizedBits(was: seq<Word>, oldMax: int, ws: seq<Word>, n: nat)
    requires oldMax >= -1 && Clean(was, oldMax) && WordCount(n - 1) <= |ws|
    requires forall w :: 0 <= w < WordCount(oldMax) && w < |ws| ==> ws[w] == was[w]
    requires forall w :: WordCount(oldMax) <= w < WordCount(n - 1) ==> ws[w] == ZERO
    ensures BitsOf(ws, n - 1) == Resized(BitsOf(was, oldMax), n)
  {
    forall i | 0 <= i < n ensures At(ws, i) == Resized(BitsOf(was, oldMax), n)[i] {
      var w := i / 32;
      assert w < WordCount(n - 1);
      if w < WordCount(oldMax) {
        assert At(ws, i) == At(was, i);
      } else {
        assert !At(ws, i);
      }
    }
  }

  lemma FlippedBits(was: seq<Word>, max: int, ws: seq<Word>)
    requires -1 <= max < 32 * |was| && |ws| == |was|
    requires forall w :: 0 <= w < WordCount(max) ==> ws[w] == Not(was[w])
    ensures BitsOf(ws, max) == Flipped(BitsOf(was, max))
  {
    forall i | 0 <= i <= max ensures At(ws, i) == !At(was, i) {
      assert ws[i / 32] == Not(was[i / 32]);
    }
  }

  lemma OrOfBits(was: seq<Word>, max: int, xs: seq<Word>, xMax: int, ws: seq<Word>)
    requires -1 <= xMax <= max < 32 * |was| && Clean(was, max) && Clean(xs, xMax) && |ws| == |was|
    requires forall w :: 0 <= w < WordCount(xMax) ==> ws[w] == Or(was[w], xs[w])
    requires forall w :: WordCount(xMax) <= w < |ws| ==> ws[w] == was[w]
    ensures Clean(ws, max) && BitsOf(ws, max) == OrBits(BitsOf(was, max), BitsOf(xs, xMax))
  {
    forall i | 0 <= i < 32 * WordCount(max)
      ensures At(ws, i) == (At(was, i) || (i < 32 * WordCount(xMax) && At(xs, i)))
    {
      if i < 32 * WordCount(xMax) {
        assert ws[i / 32] == Or(was[i / 32], xs[i / 32]);
      }
    }
  }

  lemma ResizedOr(a: seq<bool>, b: seq<bool>)
    ensures |a| < |b| ==> OrBits(Resized(a, |b|), b) == OrBits(a, b)
  {
  }

  lemma DifferenceOfBits(was: seq<Word>, max: int, xs: seq<Word>, ws: seq<Word>)
    requires -1 <= max < 32 * |was| && Clean(was, max) && Clean(xs, max) && WordCount(max) <= |ws|
    requires |ws| > 0
    requires forall w :: 0 <= w < WordCount(max) ==> ws[w] == And(xs[w], Not(was[w]))
    ensures Clean(ws, max) && BitsOf(ws, max) == Difference(BitsOf(xs, max), BitsOf(was, max))
  {
    forall i | 0 <= i < 32 * WordCount(max) ensures At(ws, i) == (At(xs, i) && !At(was, i)) {
      assert ws[i / 32] == And(xs[i / 32], Not(was[i / 32]));
    }
  }

  // The shifted words of x are the bits of x at the offset.
  lemma OffsetOrBits(was: seq<Word>, max: int, xs: seq<Word>, xMax: int, offset: nat, ws: seq<Word>)
    requires 0 <= xMax <= offset + xMax <= max && Clean(was, max) && Clean(xs, xMax) && |xs| == WordCount(xMax)
    requires AddedSoFar(was, ws, xs, offset % 32, offset / 32, |xs|, WordCount(max))
    ensures Clean(ws, max)
    ensures BitsOf(ws, max) == OffsetOrLoop(BitsOf(was, max), BitsOf(xs, xMax), offset, 0)
  {
    assert |ws| == |was| >= WordCount(max);
    hide At, AddedSoFar;
    var a, b := BitsOf(was, max), BitsOf(xs, xMax);
    forall i | 0 <= i < 32 * WordCount(max)
      ensures At(ws, i) == (At(was, i) || (0 <= i - offset < 32 * |xs| && At(xs, i - offset)))
    {
      OffsetOrBit(was, xs, offset, ws, WordCount(max), i);
    }
    forall i | 0 <= i <= max ensures At(ws, i) == OffsetOrLoop(a, b, offset, 0)[i] {
      OffsetOrLoopAt(a, b, offset, 0, i);
    }
  }

  lemma OffsetOrBit(was: seq<Word>, xs: seq<Word>, offset: nat, ws: seq<Word>, limit: nat, i: nat)
    requires AddedSoFar(was, ws, xs, offset % 32, offset / 32, |xs|, limit) && i < 32 * limit
    ensures At(ws, i) == (At(was, i) || (0 <= i - offset < 32 * |xs| && At(xs, i - offset)))
  {
    hide Added;
    var w, k, s := i / 32, i % 32, offset % 32;
    var d := w - offset / 32;
    assert ws[w] == Or(was[w], Added(xs, s, |xs|, d));
    AddedBit(xs, s, d, k);
    assert 32 * d + k - s == i - offset;
  }

  lemma CopiedBits(xs: seq<Word>, max: int, ws: seq<Word>)
    requires max >= -1 && Clean(xs, max) && WordCount(max) <= |ws| && |ws| > 0
    requires ws[..WordCount(max)] == xs[..WordCount(max)]
    ensures Clean(ws, max) && BitsOf(ws, max) == BitsOf(xs, max)
  {
    forall i | 0 <= i < 32 * WordCount(max) ensures At(ws, i) == At(xs, i) {
      assert ws[..WordCount(max)][i / 32] == xs[..WordCount(max)][i / 32];
    }
  }

  // What an empty operand does is up to its first word.
  lemma EmptyOr(was: seq<Word>, max: int, x: Word, offset: nat, ws: seq<Word>)
    requires max >= -1 && Clean(was, max)
    requires AddedSoFar(was, ws, [x], offset % 32, offset / 32, 1, WordCount(max))
    ensures |ws| == |was| && BitsOf(ws, max) == StaleOr(BitsOf(was, max), x, offset)
    ensures x == ZERO ==> Clean(ws, max)
  {
    hide At, AddedSoFar, Added, ZERO;
    AddedLength(was, ws, x, offset, WordCount(max));
    forall i | 0 <= i < 32 * WordCount(max)
      ensures At(ws, i) == (At(was, i) || (offset <= i < offset + 32 && x[i - offset]))
    {
      EmptyOrAt(was, x, offset, ws, WordCount(max), i);
    }
  }

  lemma AddedLength(was: seq<Word>, ws: seq<Word>, x: Word, offset: nat, limit: nat)
    requires AddedSoFar(was, ws, [x], offset % 32, offset / 32, 1, limit)
    ensures |ws| == |was| >= limit
    ensures forall k :: 0 <= k < 32 ==> !ZERO[k]
  {
  }

  lemma EmptyOrAt(was: seq<Word>, x: Word, offset: nat, ws: seq<Word>, limit: nat, i: nat)
    requires AddedSoFar(was, ws, [x], offset % 32, offset / 32, 1, limit) && i < 32 * limit
    ensures At(ws, i) == (At(was, i) || (offset <= i < offset + 32 && x[i - offset]))
  {
    hide AddedSoFar, Added, At;
    OffsetOrBit(was, [x], offset, ws, limit, i);
    if offset <= i < offset + 32 {
      AtWord([x], 0, i - offset);
    }
  }

  lemma NothingOr(a: seq<bool>, b: seq<bool>, x: Word, offset: nat)
    requires x == ZERO && |b| == 0 && offset <= |a|
    ensures StaleOr(a, x, offset) == a == OffsetOrLoop(a, b, offset, 0)
  {
  }

  // The words that hold bits are all that matters.
  lemma CleanWords(ws: seq<Word>, max: int)
    requires max >= -1 && Clean(ws, max)
    ensures WordCount(max) <= |ws|
    ensures max >= 0 ==> Clean(ws[..WordCount(max)], max)
    ensures BitsOf(ws[..WordCount(max)], max) == BitsOf(ws, max)
  {
    var xs := ws[..WordCount(max)];
    assert forall i :: 0 <= i < 32 * |xs| ==> At(xs, i) == At(ws, i);
  }

  lemma SetOneBit(was: seq<Word>, max: int, i: nat, value: bool, w: Word)
    requires i <= max && Clean(was, max)
    requires forall k :: 0 <= k < 32 ==> w[k] == if k == i % 32 then value else was[i / 32][k]
    ensures var ws := was[i / 32 := w];
            Clean(ws, max) && BitsOf(ws, max) == BitsOf(was, max)[i := value]
  {
    var ws := was[i / 32 := w];
    forall j | 0 <= j < 32 * |ws| ensures At(ws, j) == if j == i then value else At(was, j) {
    }
  }

  // ----- Sets ---------------------------------------------------------------------------

  function SetOf(bits: seq<bool>): (s: set<nat>)
    ensures forall i: nat :: i in s <==> i < |bits| && bits[i]
  {
    set i: nat | i < |bits| && bits[i]
  }

  predicate IsBetween(i: int, start: nat, end: int) {
    start <= i < end
  }

  function Interval(start: nat, end: int): (s: set<nat>)
    ensures forall i: nat :: i in s <==> IsBetween(i, start, end)
  {
    set i: nat | i < end && IsBetween(i, start, end)
  }

  // What the operations do to the set of the bits that are set.
  lemma BitsAreSets(a: seq<bool>, b: seq<bool>, start: nat, end: int, n: nat)
    ensures SetOf(OrBits(a, b)) == SetOf(a) + SetOf(b)
    ensures |a| == |b| ==> SetOf(Difference(b, a)) == SetOf(b) - SetOf(a)
    ensures SetOf(Flipped(a)) == Interval(0, |a|) - SetOf(a)
    ensures SetOf(Resized(a, n)) == SetOf(a) * Interval(0, n)
    ensures SetOf(WithRange(a, start, end, true)) == SetOf(a) + Interval(start, end) * Interval(0, |a|)
    ensures SetOf(WithRange(a, start, end, false)) == SetOf(a) - Interval(start, end)
  {
  }

  class Bitvector {
    var max: int
    var data: array<Word>

    ghost predicate Valid()
      reads this, data
    {
      max >= -1 && Clean(data[..], max)
    }

    // The array has room for n bits, or is replaced when it has not: every vector starts with
    // two words, but an assignment can leave a single one, which is taken for two.
    predicate Fits(n: nat)
      reads this
    {
      data.Length >= 2 || !(32 < n <= 64)
    }

    // An empty vector has a clear first word.
    predicate Tidy()
      reads this, data
    {
      max < 0 ==> data.Length > 0 && data[0] == ZERO
    }

    function Bits(): (bits: seq<bool>)
      requires Valid()
      reads this, data
    {
      BitsOf(data[..], max)
    }

    function Size(): int
      reads this
    {
      max + 1
    }

    constructor (n: nat)
      ensures Valid() && Tidy() && data.Length >= 2 && fresh(data) && Bits() == Falses(n)
    {
      max := n - 1;
      data := new Word[if WordCount(n - 1) < 2 then 2 else WordCount(n - 1)](_ => ZERO);
      new;
      assert forall i :: 0 <= i < 32 * data.Length ==> !At(data[..], i);
    }

    method ClearLast()
      requires max >= -1 && data.Length >= 1 && WordCount(max) <= data.Length
      modifies data
      ensures Valid() && Tidy() && Bits() == old(BitsOf(data[..], max))
    {
      var m := max;
      if m < 0 {
        data[0] := ZERO;
      } else if m % 32 != 31 {
        data[m / 32] := And(data[m / 32], LowMask(m % 32 + 1));
      }
    }

    method Resize(n: nat) returns (inside: bool)
      requires Valid()
      modifies this, data
      ensures inside == old(Fits(n)) && (data == old(data) || fresh(data)) && (old(data.Length) >= 2 ==> data.Length >= 2)
      ensures inside ==> Valid() && Tidy() && Bits() == Resized(old(Bits()), n)
      ensures !inside ==> unchanged(this) && data[..] == old(data[..])
    {
      hide BitsOf, Resized, At;
      ghost var was, oldMax := data[..], max;
      if n >= max {
        var want, have := (n + 31) / 32, WordCount(max);
        if want > 2 && want > have {
          var newData := new Word[want];
          CopyWords(data, newData, have);
          data := newData;
        }
        if want > data.Length {
          return false;
        }
        ClearWords(data, have, want);
      }
      inside := true;
      ResizedBits(was, oldMax, data[..], n);
      max := n - 1;
      ClearLast();
    }

    // Assignment. An empty operand leaves the words as they are, and the array has as many
    // words as the operand needs when it is replaced.
    method CopyFrom(x: Bitvector)
      requires Valid() && x.Valid() && (x == this || x.data != data)
      modifies this, data
      ensures Valid() && Bits() == old(x.Bits())
      ensures if WordCount(old(x.max)) > WordCount(old(max)) then fresh(data) && data.Length == WordCount(old(x.max))
              else data == old(data)
      ensures old(x.max) < 0 ==> data[..] == old(data[..])
    {
      ghost var xs, xMax := x.data[..], x.max;
      if x == this {
        return;
      }
      var n := WordCount(x.max);
      if n > WordCount(max) {
        data := new Word[n](_ => ZERO);
      }
      ghost var was := data[..];
      CopyWords(x.data, data, n);
      max := x.max;
      CopiedBits(xs, xMax, data[..]);
    }

    method Assign(n: nat, bit: bool) returns (inside: bool)
      requires Valid()
      modifies this, data
      ensures inside == old(Fits(n)) && (data == old(data) || fresh(data))
      ensures inside ==> Valid() && Tidy() && Bits() == seq(n, _ => bit)
      ensures !inside ==> unchanged(this) && data[..] == old(data[..])
    {
      if n >= max && n > 64 {
        data := new Word[(n + 31) / 32];
      }
      if WordCount(n - 1) > data.Length {
        return false;
      }
      inside := true;
      max := n - 1;
      var words, nn := data, WordCount(max);
      var i: nat := 0;
      while i < nn
        invariant i <= nn <= words.Length && data == words && max == n - 1
        invariant forall w :: 0 <= w < i ==> words[w] == Fill(bit)
      {
        words[i] := Fill(bit);
        i := i + 1;
      }
      assert forall i :: 0 <= i < n ==> words[i / 32] == Fill(bit);
      ClearLast();
    }

    method Flip()
      requires Valid()
      modifies data
      ensures Valid() && Tidy() && Bits() == Flipped(old(Bits()))
    {
      ghost var was := data[..];
      var nn := WordCount(max);
      var i: nat := 0;
      while i < nn
        invariant i <= nn <= data.Length
        invariant forall w :: 0 <= w < data.Length ==> data[w] == if w < i then Not(was[w]) else was[w]
      {
        data[i] := Not(data[i]);
        i := i + 1;
      }
      FlippedBits(was, max, data[..]);
      ClearLast();
    }

    method OrAssign(x: Bitvector) returns (inside: bool)
      requires Valid() && x.Valid() && (x == this || x.data != data)
      modifies this, data
      ensures inside == (old(x.max <= max) || old(Fits(x.max + 1))) && (data == old(data) || fresh(data))
      ensures inside ==> Valid() && Bits() == OrBits(old(Bits()), old(x.Bits()))
      ensures !inside ==> unchanged(this) && data[..] == old(data[..])
    {
      hide OrBits, Resized, Or, At;
      ResizedOr(Bits(), x.Bits());
      inside := true;
      if x.max > max {
        inside := Resize(x.max + 1);
        if !inside {
          return;
        }
      }
      var words, xWords := data, x.data;
      ghost var was, xs := words[..], xWords[..];
      var nn, xn := WordCount(max), WordCount(x.max);
      nn := if nn < xn then nn else xn;
      OrWords(words, xWords, nn);
      OrOfBits(was, max, xs, x.max, words[..]);
    }

    // Word by word, the loop that documents it, but for an empty operand: its first word is
    // read all the same, and the word at the offset may be the one behind the array.
    method OffsetOr(x: Bitvector, offset: nat) returns (inside: bool)
      requires Valid() && x.Valid() && (x == this || x.data != data)
      requires offset + x.max <= max
      modifies data
      ensures inside == (x.max >= 0 || offset / 32 < data.Length)
      ensures inside && old(x.Tidy()) ==> Valid() && Bits() == OffsetOrLoop(old(Bits()), old(x.Bits()), offset, 0)
      ensures inside && x.max < 0 ==>
        BitsOf(data[..], max) == StaleOr(old(BitsOf(data[..], max)), old(x.data[0]), offset)
      ensures !inside ==> unchanged(data)
    {
      var bits1st, first := offset % 32, offset / 32;
      var myMaxWord, xMaxWord := WordCount(max) - 1, WordCount(x.max) - 1;
      inside := x.max >= 0 || first < data.Length;
      if !inside {
        return;
      }
      ghost var n := if xMaxWord < 0 then 1 else xMaxWord + 1;
      ghost var was, xs := data[..], x.data[..n];
      hide Added, AddedSoFar, Clean, BitsOf, OffsetOrLoop, At, StaleOr;
      CleanWords(data[..], max);
      CleanWords(x.data[..], x.max);
      assert xs == x.data[..][..n];
      OffsetOrWords(data, x.data, bits1st, first, myMaxWord, xMaxWord);
      if x.max >= 0 {
        OffsetOrBits(was, max, xs, x.max, offset, data[..]);
      } else {
        assert xs == [xs[0]] && x.Bits() == [];
        EmptyOr(was, max, xs[0], offset, data[..]);
        if xs[0] == ZERO {
          NothingOr(old(Bits()), [], ZERO, offset);
        }
      }
    }

    method OrWithDifference(x: Bitvector, difference: Bitvector) returns (inside: bool)
      requires Valid() && x.Valid() && difference.Valid() && x.max == max
      requires difference != this && difference != x
      requires (x == this || x.data != data) && difference.data != data && difference.data != x.data
      modifies data, difference, difference.data
      ensures inside == (old(difference.max) == max || old(difference.Fits(max + 1)))
      ensures inside ==> Valid() && difference.Valid()
      ensures inside ==> Bits() == OrBits(old(Bits()), old(x.Bits()))
      ensures inside ==> difference.Bits() == Difference(old(x.Bits()), old(Bits()))
      ensures !inside ==> unchanged(data, difference) && difference.data[..] == old(difference.data[..])
    {
      hide And, Or, Not, At, BitsOf;
      inside := true;
      if difference.max != max {
        inside := difference.Resize(max + 1);
        if !inside {
          return;
        }
      }
      var words, xWords, diff := data, x.data, difference.data;
      ghost var was, xs := words[..], xWords[..];
      var nn := WordCount(max);
      OrWordsWithDifference(words, xWords, diff, nn);
      OrOfBits(was, max, xs, max, words[..]);
      DifferenceOfBits(was, max, xs, diff[..]);
    }

    // Assignment to one bit.
    method SetBit(i: nat, value: bool)
      requires Valid() && i <= max
      modifies data
      ensures Valid() && Bits() == old(Bits())[i := value]
    {
      ghost var was := data[..];
      var mask := Left(LowMask(1), i % 32);
      data[i / 32] := if value then Or(data[i / 32], mask) else And(data[i / 32], Not(mask));
      assert data[..] == was[i / 32 := data[i / 32]];
      SetOneBit(was, max, i, value, data[i / 32]);
    }

    method SetRange(start: nat, length: int, value: bool)
      requires Valid() && start + length <= Size()
      modifies data
      ensures Valid() && Bits() == WithRange(old(Bits()), start, start + length, value)
    {
      var i := start;
      while i < start + length
        invariant start <= i && Valid() && Bits() == WithRange(old(Bits()), start, i, value)
        invariant i <= start + length || i == start
      {
        SetBit(i, value);
        i := i + 1;
      }
    }

    // Whether a bit of the range, as far as it is inside the vector, is set.
    method Range(start: nat, length: int) returns (found: bool)
      requires Valid()
      ensures found <==> exists i :: start <= i < start + length && i <= max && Bits()[i]
    {
      var i := start;
      while i < start + length
        invariant start <= i && forall k :: start <= k < i ==> k <= max && !Bits()[k]
      {
        if i >= Size() {
          return false;
        }
        if At(data[..], i) {
          assert Bits()[i];
          return true;
        }
        i := i + 1;
      }
      found := false;
    }

    // The text of a set of bits replaces this one, unless it is not well formed.
    method Parse(str: string, minVal: int, maxVal: int, offset: int) returns (ok: bool)
      requires Valid()
      modifies this
      ensures ok == ReadText(str, minVal, maxVal, offset).Some?
      ensures ok ==> Valid() && data.Length >= 2 && fresh(data)
                     && Bits() == ReadText(str, minVal, maxVal, offset).value
      ensures !ok ==> max == old(max) && data == old(data)
    {
      hide ReadRange, Shift;
      if offset < 0 || maxVal < minVal {
        return false;
      }
      var result := new Bitvector(maxVal - minVal + 1 + offset);
      var work := str;
      ghost var all := ReadText(str, minVal, maxVal, offset);
      while true
        invariant result.Valid() && result.data.Length >= 2
        invariant fresh(result) && fresh(result.data) && unchanged(this)
        invariant |result.Bits()| == maxVal - minVal + 1 + offset
        invariant ReadParts(work, minVal, maxVal, offset, result.Bits()) == all
        decreases |work|
      {
        ghost var bits := result.Bits();
        var part;
        part, work := Shift(work, ',').0, Shift(work, ',').1;
        if |part| == 0 {
          break;
        }
        var inRange, lo, hi := FindRange(part, minVal, maxVal);
        if !inRange {
          return false;
        }
        var i := lo;
        while i <= hi
          invariant lo <= i <= hi + 1
          invariant result.Valid() && result.data.Length >= 2
          invariant fresh(result) && fresh(result.data) && unchanged(this)
          invariant result.Bits() == SetBits(bits, lo - minVal + offset, i - minVal + offset)
        {
          result.SetBit(i - minVal + offset, true);
          i := i + 1;
        }
      }
      max, data := result.max, result.data;
      ok := true;
    }

    method Unparse(readOffset: int, outputOffset: int) returns (sa: string)
      requires Valid()
      ensures sa == RunsText(Runs(Bits(), if readOffset < 0 then 0 else readOffset), outputOffset - readOffset)
    {
      hide RunsText, FormatRun, Runs, Stop;
      var from := if readOffset < 0 then 0 else readOffset;
      ghost var bits, done: seq<Run>, shift := Bits(), [], outputOffset - readOffset;
      var startRange, i := -1, from;
      sa := [];
      NoRuns(bits, from, shift);
      while i <= Size()
        invariant from <= i && (i <= Size() + 1 || (i == from && startRange < 0))
        invariant sa == RunsText(done, shift) && -1 <= startRange < i
        invariant startRange < 0 ==> Runs(bits, from) == done + Runs(bits, i)
        invariant startRange >= 0 ==> i <= Size() && Runs(bits, from) == done + Runs(bits, startRange)
        invariant startRange >= 0 ==> bits[startRange] && Stop(bits, startRange) == Stop(bits, i)
      {
        RunStep(bits, i);
        if i < Size() && startRange < 0 && At(data[..], i) {
          startRange := i;
        } else if startRange >= 0 && (i >= Size() || !At(data[..], i)) {
          ghost var r := Run(startRange, i);
          TextClosed(sa, done, r, shift);
          if |sa| > 0 {
            sa := sa + [','];
          }
          sa := sa + FormatRun(startRange - readOffset + outputOffset, i - 1 - readOffset + outputOffset);
          RunClosed(bits, done, startRange, i);
          done := done + [r];
          startRange := -1;
        }
        i := i + 1;
      }
      RunStep(bits, i);
      assert done + [] == done;
    }
  }

  // An empty vector, assigned one of a single word, has no room for a second one.
  method OneWordLeft() returns (inside: bool)
    ensures !inside
  {
    var a := new Bitvector(0);
    var b := new Bitvector(1);
    a.CopyFrom(b);
    inside := a.Resize(33);
  }

  // An operand that was assigned an empty vector: its size is 0 and its first word is not, so
  // it sets a bit.
  method StaleWordLeft() returns (size: int, bit: bool)
    ensures size == 0 && bit
  {
    var a := new Bitvector(1);
    var e := new Bitvector(0);
    var b := new Bitvector(1);
    a.SetBit(0, true);
    assert a.Bits()[0] && a.data[..][0][0];
    a.CopyFrom(e);
    assert a.data[0][0];
    size := a.Size();
    ghost var before := BitsOf(b.data[..], 0);
    var _ := b.OffsetOr(a, 0);
    assert BitsOf(b.data[..], 0) == StaleOr(before, a.data[0], 0);
    bit := At(b.data[..], 0);
    assert bit == BitsOf(b.data[..], 0)[0];
  }

  lemma RunStep(bits: seq<bool>, i: nat)
    ensures i >= |bits| ==> Runs(bits, i) == []
    ensures i >= |bits| || !bits[i] ==> Runs(bits, i) == Runs(bits, i + 1)
    ensures i < |bits| && bits[i] ==> Stop(bits, i) == Stop(bits, i + 1)
  {
  }

  lemma NoRuns(bits: seq<bool>, from: nat, shift: int)
    ensures RunsText([], shift) == [] && Runs(bits, from) == [] + Runs(bits, from)
  {
  }

  lemma RunsTextEmpty(runs: seq<Run>, shift: int)
    ensures |RunsText(runs, shift)| > 0 <==> |runs| > 0
  {
    if |runs| > 0 {
      RunTextNonempty(runs[0], shift);
    }
  }

  lemma TextClosed(sa: string, runs: seq<Run>, r: Run, shift: int)
    requires sa == RunsText(runs, shift)
    ensures RunsText(runs + [r], shift)
         == (if |sa| > 0 then sa + [','] else sa) + FormatRun(r.lo + shift, r.hi - 1 + shift)
  {
    hide RunsText;
    RunsTextPush(runs, r, shift);
    RunsTextEmpty(runs, shift);
  }

  lemma RunClosed(bits: seq<bool>, done: seq<Run>, lo: nat, hi: nat)
    requires lo < hi <= |bits| && bits[lo] && Stop(bits, lo) == Stop(bits, hi)
    requires hi == |bits| || !bits[hi]
    ensures done + Runs(bits, lo) == done + [Run(lo, hi)] + Runs(bits, hi + 1)
  {
    assert Runs(bits, lo) == [Run(lo, hi)] + Runs(bits, hi);
    assert Runs(bits, hi) == Runs(bits, hi + 1);
  }

  // BoundedIntArg.
  method FindBounded(t: string, min: int, max: int) returns (ok: bool, value: int)
    ensures ok == ReadBounded(t, min, max).Some?
    ensures ok ==> value == ReadBounded(t, min, max).value
  {
    var arg := new IntArg(0);
    var end;
    end, value := arg.Parse(t, true);
    ok := end == |t| && arg.status.Ok? && min <= value <= max;
  }

  method FindRange(part: string, min: int, max: int) returns (ok: bool, lo: int, hi: int)
    ensures ok == ReadRange(part, min, max).Some?
    ensures ok ==> ReadRange(part, min, max).value == (lo, hi)
  {
    hide ReadBounded;
    ok, lo, hi := false, 0, 0;
    var dash := Find(part, '-', 1);
    if dash >= 1 && dash + 1 < |part| {
      ok, lo := FindBounded(part[..dash], min, max);
      if ok {
        ok, hi := FindBounded(part[dash + 1..], min, max);
      }
      ok := ok && lo <= hi;
    }
    if !ok {
      ok, lo := FindBounded(part, min, max);
      hi := lo;
    }
  }

  method CopyWords(a: array<Word>, b: array<Word>, n: nat)
    requires n <= a.Length && n <= b.Length && a != b
    modifies b
    ensures b[..n] == a[..n] && b[n..] == old(b[n..])
  {
    var i: nat := 0;
    while i < n
      invariant i <= n && b[..i] == a[..i] && b[n..] == old(b[n..])
    {
      b[i] := a[i];
      i := i + 1;
    }
  }

  method ClearWords(a: array<Word>, from: nat, to: nat)
    requires to <= a.Length
    modifies a
    ensures forall w :: 0 <= w < a.Length ==> a[w] == if from <= w < to then ZERO else old(a[w])
  {
    var i := from;
    while i < to
      invariant from <= i && (i <= to || i == from)
      invariant forall w :: 0 <= w < a.Length ==> a[w] == if from <= w < i then ZERO else old(a[w])
    {
      a[i] := ZERO;
      i := i + 1;
    }
  }

  method OrWords(words: array<Word>, xWords: array<Word>, nn: nat)
    requires nn <= words.Length && nn <= xWords.Length
    modifies words
    ensures forall w :: 0 <= w < words.Length ==>
      words[w] == if w < nn then Or(old(words[w]), old(xWords[w])) else old(words[w])
  {
    hide Or;
    var i: nat := 0;
    while i < nn
      invariant i <= nn
      invariant forall w :: 0 <= w < words.Length ==>
        words[w] == if w < i then Or(old(words[w]), old(xWords[w])) else old(words[w])
    {
      words[i] := Or(words[i], xWords[i]);
      i := i + 1;
    }
  }

  method OrWordsWithDifference(words: array<Word>, xWords: array<Word>, diff: array<Word>, nn: nat)
    requires nn <= words.Length && nn <= xWords.Length && nn <= diff.Length
    requires diff != words && diff != xWords
    modifies words, diff
    ensures forall w :: 0 <= w < words.Length ==>
      words[w] == if w < nn then Or(old(words[w]), old(xWords[w])) else old(words[w])
    ensures forall w :: 0 <= w < diff.Length ==>
      diff[w] == if w < nn then And(old(xWords[w]), Not(old(words[w]))) else old(diff[w])
  {
    hide Or, And, Not;
    var i: nat := 0;
    while i < nn
      invariant i <= nn
      invariant forall w :: 0 <= w < words.Length ==>
        words[w] == if w < i then Or(old(words[w]), old(xWords[w])) else old(words[w])
      invariant forall w :: 0 <= w < diff.Length ==>
        diff[w] == if w < i then And(old(xWords[w]), Not(old(words[w]))) else old(diff[w])
    {
      diff[i] := And(xWords[i], Not(words[i]));
      words[i] := Or(words[i], xWords[i]);
      i := i + 1;
    }
  }

  method OffsetOrWords(data: array<Word>, xData: array<Word>, bits1st: nat, first: nat, myMaxWord: int, xMaxWord: int)
    requires bits1st < 32 && -1 <= xMaxWord < xData.Length && 0 < xData.Length && -1 <= myMaxWord < data.Length
    requires if xMaxWord >= 0 then first + xMaxWord <= myMaxWord else first < data.Length
    requires xData != data || (bits1st == 0 && first == 0)
    modifies data
    ensures var xs := old(xData[..if xMaxWord < 0 then 1 else xMaxWord + 1]);
            AddedSoFar(old(data[..]), data[..], xs, bits1st, first, |xs|, myMaxWord + 1)
  {
    hide Added, AddedSoFar, Left, Right, Or;
    var myPos, xPos: nat := first, 0;
    ghost var n: nat, limit := if xMaxWord < 0 then 1 else xMaxWord + 1, myMaxWord + 1;
    ghost var was, xs := data[..], xData[..n];
    NoneAdded(was, xs, bits1st, first, limit);
    while true
      invariant xPos < n && myPos == first + xPos < data.Length && (myPos <= myMaxWord || n == 1)
      invariant forall w :: xPos <= w < n ==> xData[w] == xs[w]
      invariant AddedSoFar(was, data[..], xs, bits1st, first, xPos, limit)
      decreases n - xPos
    {
      if myPos <= myMaxWord {
        AddWord(was, data[..], xs, bits1st, first, xPos, limit);
      } else {
        AddBehind(was, data[..], xs, bits1st, first, limit);
      }
      ghost var left := AddLeft(data[..], xs[xPos], bits1st, myPos);
      var val := xData[xPos];
      data[myPos] := Or(data[myPos], Left(val, bits1st));
      assert data[..] == left;
      myPos := myPos + 1;
      if myPos > myMaxWord {
        AllAdded(was, data[..], xs, bits1st, first, xPos + 1, limit);
        break;
      }
      if bits1st > 0 {
        data[myPos] := Or(data[myPos], Right(val, 32 - bits1st));
      }
      assert data[..] == AddRight(left, xs[xPos], bits1st, myPos);
      xPos := xPos + 1;
      if xPos > xMaxWord {
        break;
      }
    }
  }
}
