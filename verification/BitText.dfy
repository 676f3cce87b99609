/**
 Sets of bits as text: the ranges that `Bitvector::parse` and `Bitvector::unparse` of
 `lib/bitvector.cc` read and write.
 */
module BitText {
  import opened Widths
  import opened IntegerText

  datatype Option<T> = None | Some(value: T)

  // ----- Runs of set bits ---------------------------------------------------------------

  // The bits from lo up to, not including, hi.
  datatype Run = Run(lo: nat, hi: nat)

  // Where the set bits from i on stop.
  function Stop(bits: seq<bool>, i: nat): (e: nat)
    requires i <= |bits|
    ensures i <= e <= |bits| && forall k :: i <= k < e ==> bits[k]
    ensures e < |bits| ==> !bits[e]
    decreases |bits| - i
  {
    if i < |bits| && bits[i] then Stop(bits, i + 1) else i
  }

  function Runs(bits: seq<bool>, i: nat): (runs: seq<Run>)
    decreases |bits| - i
  {
    if i >= |bits| then []
    else if !bits[i] then Runs(bits, i + 1)
    else [Run(i, Stop(bits, i))] + Runs(bits, Stop(bits, i))
  }

  predicate Covers(r: Run, k: nat) {
    r.lo <= k < r.hi
  }

  // Increasing, and with a gap between one run and the next.
  predicate Separated(runs: seq<Run>) {
    forall i, j :: 0 <= i < j < |runs| ==> runs[i].hi < runs[j].lo
  }

  // A run of set bits that cannot be extended.
  predicate Maximal(bits: seq<bool>, from: nat, r: Run) {
    from <= r.lo < r.hi <= |bits| && (forall k :: r.lo <= k < r.hi ==> bits[k])
    && (r.hi == |bits| || !bits[r.hi]) && (r.lo == from || !bits[r.lo - 1])
  }

  // The runs are the maximal ones, in increasing order, and they hold all set bits.
  lemma {:induction false} RunsAreMaximal(bits: seq<bool>, from: nat)
    ensures Separated(Runs(bits, from))
    ensures forall r :: r in Runs(bits, from) ==> Maximal(bits, from, r)
    ensures forall k :: from <= k < |bits| && bits[k] ==> exists r :: r in Runs(bits, from) && Covers(r, k)
    decreases |bits| - from
  {
    if from < |bits| {
      if !bits[from] {
        RunsAreMaximal(bits, from + 1);
        forall r | r in Runs(bits, from + 1) ensures Maximal(bits, from, r) {
          assert Maximal(bits, from + 1, r);
        }
      } else {
        var e := Stop(bits, from);
        RunsAreMaximal(bits, e);
        PrependRun(bits, from, Runs(bits, e));
        var first, runs := Run(from, e), Runs(bits, from);
        assert runs[0] == first && runs[1..] == Runs(bits, e);
        forall k | from <= k < |bits| && bits[k] ensures exists r :: r in runs && Covers(r, k) {
          if k < e {
            assert first in runs && Covers(first, k);
          } else {
            var r :| r in Runs(bits, e) && Covers(r, k);
            assert r in runs[1..];
          }
        }
      }
    }
  }

  lemma PrependRun(bits: seq<bool>, from: nat, rest: seq<Run>)
    requires from < |bits| && bits[from] && Separated(rest)
    requires forall r :: r in rest ==> Maximal(bits, Stop(bits, from), r)
    ensures var runs := [Run(from, Stop(bits, from))] + rest;
            Separated(runs) && forall r :: r in runs ==> Maximal(bits, from, r)
    ensures forall k :: from <= k < Stop(bits, from) ==> Covers(Run(from, Stop(bits, from)), k)
  {
    var e := Stop(bits, from);
    forall r | r in rest ensures Maximal(bits, from, r) && r.lo > e {
      assert Maximal(bits, e, r);
    }
  }

  // ----- Printing -----------------------------------------------------------------------

  function IntText(x: int): string {
    if x < 0 then ['-'] + Numeral(-x, 10) else Numeral(x, 10)
  }

  // A range of two or more numbers has both its ends written.
  function FormatRun(first: int, last: int): string {
    if last > first then IntText(first) + ['-'] + IntText(last) else IntText(first)
  }

  function RunText(r: Run, shift: int): string {
    FormatRun(r.lo + shift, r.hi - 1 + shift)
  }

  function RunsText(runs: seq<Run>, shift: int): string
    decreases |runs|, shift
  {
    if |runs| == 0 then []
    else if |runs| == 1 then RunText(runs[0], shift)
    else RunText(runs[0], shift) + [','] + RunsText(runs[1..], shift)
  }

  lemma {:induction false} RunsTextPush(runs: seq<Run>, r: Run, shift: int)
    ensures RunsText(runs + [r], shift)
         == (if |runs| == 0 then [] else RunsText(runs, shift) + [',']) + RunText(r, shift)
    decreases |runs|
  {
    hide RunText;
    if |runs| == 0 {
      assert runs + [r] == [r];
    } else {
      RunsTextPush(runs[1..], r, shift);
      assert (runs + [r])[1..] == runs[1..] + [r];
    }
  }

  lemma RunTextNonempty(r: Run, shift: int)
    ensures |RunText(r, shift)| > 0
  {
  }

  // ----- Reading ------------------------------------------------------------------------

  function Find(t: string, c: char, i: nat): (k: int)
    ensures k == -1 || (i <= k < |t| && t[k] == c)
    ensures forall j :: i <= j < (if k == -1 then |t| else k) ==> t[j] != c
    decreases |t| - i
  {
    if i >= |t| then -1 else if t[i] == c then i else Find(t, c, i + 1)
  }

  // The text up to the first delimiter, and what is behind it.
  function Shift(t: string, delim: char): (r: (string, string))
    ensures |r.0| <= |t| && (|t| > 0 ==> |r.1| < |t|) && (|t| == 0 ==> |r.0| == 0)
  {
    var k := Find(t, delim, 0);
    if k >= 0 then (t[..k], t[k + 1..]) else (t, [])
  }

  // BoundedIntArg: an integer that is the whole text, in range and between the bounds.
  function ReadBounded(t: string, min: int, max: int): Option<int> {
    var n := ParseInteger(t, true, 0);
    if n.end == |t| && n.status.Ok? && min <= n.value <= max then Some(n.value) else None
  }

  // A range or a single number, with its first and last value.
  function ReadRange(part: string, min: int, max: int): (r: Option<(int, int)>)
    ensures r.Some? ==> min <= r.value.0 <= r.value.1 <= max
  {
    var dash := Find(part, '-', 1);
    var range := if dash >= 1 && dash + 1 < |part| then
        var lo, hi := ReadBounded(part[..dash], min, max), ReadBounded(part[dash + 1..], min, max);
        if lo.Some? && hi.Some? && lo.value <= hi.value then Some((lo.value, hi.value)) else None
      else None;
    if range.Some? then range
    else
      var n := ReadBounded(part, min, max);
      if n.Some? then Some((n.value, n.value)) else None
  }

  function SetBits(bits: seq<bool>, lo: int, hi: int): (r: seq<bool>)
    ensures |r| == |bits|
  {
    seq(|bits|, i requires 0 <= i < |bits| => bits[i] || lo <= i < hi)
  }

  // The parts of a text, up to the first empty one.
  function ReadParts(work: string, min: int, max: int, offset: nat, bits: seq<bool>): (r: Option<seq<bool>>)
    ensures r.Some? ==> |r.value| == |bits|
    decreases |work|, offset
  {
    var (part, rest) := Shift(work, ',');
    if |part| == 0 then Some(bits)
    else
      var range := ReadRange(part, min, max);
      if range.None? then None
      else
        var (lo, hi) := range.value;
        ReadParts(rest, min, max, offset, SetBits(bits, lo - min + offset, hi + 1 - min + offset))
  }

  function Falses(n: nat): (r: seq<bool>)
    ensures |r| == n
  {
    seq(n, _ => false)
  }

  function ReadText(str: string, min: int, max: int, offset: int): Option<seq<bool>> {
    if offset < 0 || max < min then None
    else ReadParts(str, min, max, offset, Falses(max - min + 1 + offset))
  }

  // ----- Round trip ---------------------------------------------------------------------

  lemma ReadBoundedNumeral(n: nat, max: int)
    requires n <= max < TWO31
    ensures ReadBounded(Numeral(n, 10), 0, max) == Some(n)
  {
    hide ParseInteger;
    ReadNumeral(n, 10, 0, []);
    assert Numeral(n, 10) + [] == Numeral(n, 10);
  }

  lemma FindAt(t: string, c: char, i: nat, k: nat)
    requires i <= k < |t| && t[k] == c && forall j :: i <= j < k ==> t[j] != c
    ensures Find(t, c, i) == k
  {
  }

  lemma ReadPair(lo: string, hi: string, min: int, max: int, a: int, b: int)
    requires '-' !in lo && |lo| > 0 && |hi| > 0 && a <= b
    requires ReadBounded(lo, min, max) == Some(a) && ReadBounded(hi, min, max) == Some(b)
    ensures ReadRange(lo + ['-'] + hi, min, max) == Some((a, b))
  {
    hide ReadBounded;
    var part := lo + ['-'] + hi;
    assert forall j :: 0 <= j < |lo| ==> part[j] == lo[j] && lo[j] in lo;
    FindAt(part, '-', 1, |lo|);
    assert part[..|lo|] == lo && part[|lo| + 1..] == hi;
  }

  lemma ReadRunText(r: Run, max: int)
    requires r.lo < r.hi <= max + 1 <= TWO31
    ensures ReadRange(RunText(r, 0), 0, max) == Some((r.lo, r.hi - 1))
    ensures ',' !in RunText(r, 0)
  {
    hide ReadBounded, Numeral, ReadRange;
    var lo, hi := Numeral(r.lo, 10), Numeral(r.hi - 1, 10);
    ReadBoundedNumeral(r.lo, max);
    ReadBoundedNumeral(r.hi - 1, max);
    if r.hi > r.lo + 1 {
      ReadPair(lo, hi, 0, max, r.lo, r.hi - 1);
    } else {
      ReadSingle(lo, 0, max, r.lo);
    }
  }

  lemma ReadSingle(t: string, min: int, max: int, a: int)
    requires '-' !in t && ReadBounded(t, min, max) == Some(a)
    ensures ReadRange(t, min, max) == Some((a, a))
  {
    hide ReadBounded;
    assert Find(t, '-', 1) == -1;
  }

  lemma ShiftFirst(a: string, b: string)
    requires ',' !in a
    ensures Shift(a + [','] + b, ',') == (a, b) && Shift(a, ',') == (a, [])
  {
    var t := a + [','] + b;
    assert t[|a|] == ',' && forall k :: 0 <= k < |a| ==> t[k] == a[k] != ',';
    assert Find(t, ',', 0) == |a|;
    assert t[..|a|] == a && t[|a| + 1..] == b;
  }

  // Reading the runs from i on completes the bits below i.
  lemma {:induction false} ReadRunsText(bits: seq<bool>, i: nat)
    requires i <= |bits| <= TWO31 && |bits| > 0
    ensures ReadParts(RunsText(Runs(bits, i), 0), 0, |bits| - 1, 0, bits[..i] + Falses(|bits| - i))
         == Some(bits)
    decreases |bits| - i
  {
    hide RunText, ReadRange, Shift;
    var acc := bits[..i] + Falses(|bits| - i);
    if i == |bits| {
      assert acc == bits;
      NoParts(0, |bits| - 1, acc);
    } else if !bits[i] {
      ReadRunsText(bits, i + 1);
      assert bits[..i + 1] + Falses(|bits| - (i + 1)) == acc;
    } else {
      var e := Stop(bits, i);
      var r, rest := Run(i, e), Runs(bits, e);
      var acc' := bits[..e] + Falses(|bits| - e);
      ReadRunsText(bits, e);
      assert SetBits(acc, i, e) == acc';
      ReadRunText(r, |bits| - 1);
      RunTextNonempty(r, 0);
      ShiftFirst(RunText(r, 0), RunsText(rest, 0));
      assert Runs(bits, i) == [r] + rest && ([r] + rest)[1..] == rest;
    }
  }

  lemma NoParts(min: int, max: int, bits: seq<bool>)
    ensures ReadParts([], min, max, 0, bits) == Some(bits)
  {
  }

  // A nonempty set of bits is read back from its text.
  lemma BitTextRoundTrip(bits: seq<bool>)
    requires 0 < |bits| <= TWO31
    ensures ReadText(RunsText(Runs(bits, 0), 0), 0, |bits| - 1, 0) == Some(bits)
  {
    hide ReadParts, RunsText, Runs;
    ReadRunsText(bits, 0);
    assert bits[..0] + Falses(|bits|) == Falses(|bits|);
  }

  // ----- Any ranges ---------------------------------------------------------------------

  // A range as it can be written: two numbers, or one.
  datatype Range = Pair(lo: int, hi: int) | One(lo: int)

  function Last(r: Range): int {
    if r.Pair? then r.hi else r.lo
  }

  function RangeText(r: Range): string {
    match r
    case Pair(lo, hi) => IntText(lo) + ['-'] + IntText(hi)
    case One(lo) => IntText(lo)
  }

  predicate IsGood(r: Range, min: int, max: int) {
    min <= r.lo <= Last(r) <= max
  }

  // Ranges with commas between them, up to the end or to a comma too many.
  function RangesText(rs: seq<Range>, end: string): string
    decreases |rs|, end
  {
    if |rs| == 0 then end
    else if |rs| == 1 && |end| == 0 then RangeText(rs[0])
    else RangeText(rs[0]) + [','] + RangesText(rs[1..], end)
  }

  // What is read of an integer that is the whole text, or that something else follows.
  lemma IntRead(x: int, rest: string)
    requires |rest| > 0 ==> rest[0] == '-'
    ensures var t, n := IntText(x), ParseInteger(IntText(x) + rest, true, 0);
            n.end == |t| && (n.status.Ok? <==> -TWO31 <= x < TWO31) && (n.status.Ok? ==> n.value == x)
  {
    hide ParseInteger, Numeral;
    var n := if x < 0 then -x else x;
    ReadPrinted(n, 10, 0, false, true, if x < 0 then ['-'] else [], [], rest);
    assert (if x < 0 then ['-'] else []) + [] + Numeral(n, 10) == IntText(x);
  }

  lemma BoundedInt(x: int, min: int, max: int)
    requires -TWO31 <= min && max < TWO31
    ensures ReadBounded(IntText(x), min, max) == if min <= x <= max then Some(x) else None
  {
    hide ParseInteger, IntText;
    IntRead(x, []);
    assert IntText(x) + [] == IntText(x);
  }

  lemma IntTextChars(x: int)
    ensures var t := IntText(x); |t| > 0 && (forall k :: 0 < k < |t| ==> t[k] != '-') && ',' !in t
  {
    hide Numeral;
  }

  // A range is read when its numbers are in order and between the bounds, and not otherwise.
  lemma RangeRead(r: Range, min: int, max: int)
    requires -TWO31 <= min && max < TWO31
    ensures ReadRange(RangeText(r), min, max) == if IsGood(r, min, max) then Some((r.lo, Last(r))) else None
    ensures ',' !in RangeText(r) && |RangeText(r)| > 0
  {
    hide ReadBounded, IntText, Find;
    IntTextChars(r.lo);
    BoundedInt(r.lo, min, max);
    var part := RangeText(r);
    if r.Pair? {
      var lo, hi := IntText(r.lo), IntText(r.hi);
      IntTextChars(r.hi);
      BoundedInt(r.hi, min, max);
      assert part[|lo|] == '-' && forall k :: 0 <= k < |lo| ==> part[k] == lo[k];
      FindAt(part, '-', 1, |lo|);
      assert part[..|lo|] == lo && part[|lo| + 1..] == hi;
      NoInteger(lo, hi, r.lo, min, max);
    } else {
      NoDash(part);
    }
  }

  lemma NoDash(t: string)
    requires forall k :: 0 < k < |t| ==> t[k] != '-'
    ensures Find(t, '-', 1) == -1
  {
  }

  lemma NoInteger(lo: string, hi: string, x: int, min: int, max: int)
    requires lo == IntText(x)
    ensures ReadBounded(lo + ['-'] + hi, min, max) == None
  {
    hide ParseInteger, IntText;
    IntRead(x, ['-'] + hi);
    assert lo + ['-'] + hi == lo + (['-'] + hi);
  }

  predicate IsIn(r: Range, x: int) {
    r.lo <= x <= Last(r)
  }

  ghost predicate InSome(rs: seq<Range>, x: int) {
    exists r :: r in rs && IsIn(r, x)
  }

  // The bits that the ranges set, besides those that are set already.
  ghost function Filled(bits: seq<bool>, rs: seq<Range>, shift: int): (r: seq<bool>)
    ensures |r| == |bits|
  {
    seq(|bits|, k requires 0 <= k < |bits| => bits[k] || InSome(rs, k - shift))
  }

  lemma FilledFirst(bits: seq<bool>, rs: seq<Range>, shift: int)
    requires |rs| > 0
    ensures Filled(SetBits(bits, rs[0].lo + shift, Last(rs[0]) + 1 + shift), rs[1..], shift) == Filled(bits, rs, shift)
  {
    var first, more := SetBits(bits, rs[0].lo + shift, Last(rs[0]) + 1 + shift), rs[1..];
    forall k | 0 <= k < |bits| ensures Filled(first, more, shift)[k] == Filled(bits, rs, shift)[k] {
      InFirst(rs, k - shift);
    }
  }

  lemma InFirst(rs: seq<Range>, x: int)
    requires |rs| > 0
    ensures InSome(rs, x) <==> IsIn(rs[0], x) || InSome(rs[1..], x)
  {
    assert rs == [rs[0]] + rs[1..];
    assert rs[0] in rs;
  }

  ghost predicate AreGood(rs: seq<Range>, min: int, max: int) {
    forall i :: 0 <= i < |rs| ==> IsGood(rs[i], min, max)
  }

  lemma {:induction false} PartsRead(rs: seq<Range>, end: string, min: int, max: int, offset: nat, bits: seq<bool>)
    requires -TWO31 <= min && max < TWO31 && (|end| > 0 ==> end[0] == ',')
    ensures ReadParts(RangesText(rs, end), min, max, offset, bits)
         == if AreGood(rs, min, max) then Some(Filled(bits, rs, offset - min)) else None
    decreases |rs|
  {
    hide ReadRange, Shift, SetBits, RangeText, IsGood, Filled;
    if |rs| == 0 {
      NothingFilled(bits, rs, offset - min);
      NoPart(end);
    } else {
      RangeRead(rs[0], min, max);
      var rest := RangesText(rs[1..], end);
      ShiftFirst(RangeText(rs[0]), rest);
      if |rs| == 1 && |end| == 0 {
        assert rest == [];
      }
      assert AreGood(rs, min, max) <==> IsGood(rs[0], min, max) && AreGood(rs[1..], min, max) by {
        assert rs == [rs[0]] + rs[1..];
      }
      var shift := offset - min;
      PartsRead(rs[1..], end, min, max, offset, SetBits(bits, rs[0].lo + shift, Last(rs[0]) + 1 + shift));
      FilledFirst(bits, rs, shift);
    }
  }

  lemma NothingFilled(bits: seq<bool>, rs: seq<Range>, shift: int)
    requires |rs| == 0
    ensures Filled(bits, rs, shift) == bits
  {
  }

  lemma NoPart(end: string)
    requires |end| > 0 ==> end[0] == ','
    ensures |Shift(end, ',').0| == 0
  {
  }

  // Ranges of numbers from min to max, in any order and overlapping or not, set the bits that
  // are as far behind the offset as the numbers are above min; a range that is not in order or
  // not between the bounds spoils the whole text.
  lemma RangesRead(rs: seq<Range>, end: string, min: int, max: int, offset: nat)
    requires -TWO31 <= min <= max < TWO31 && (|end| > 0 ==> end[0] == ',')
    ensures ReadText(RangesText(rs, end), min, max, offset)
         == if AreGood(rs, min, max) then Some(Filled(Falses(max - min + 1 + offset), rs, offset - min)) else None
  {
    hide ReadParts, RangesText, AreGood, Filled;
    PartsRead(rs, end, min, max, offset, Falses(max - min + 1 + offset));
  }

  // ----- Printing from an offset on -----------------------------------------------------

  function RangeOf(r: Run, shift: int): Range {
    if r.hi - 1 > r.lo then Pair(r.lo + shift, r.hi - 1 + shift) else One(r.lo + shift)
  }

  function RangesOf(runs: seq<Run>, shift: int): (rs: seq<Range>)
    ensures |rs| == |runs| && forall i :: 0 <= i < |runs| ==> rs[i] == RangeOf(runs[i], shift)
  {
    seq(|runs|, i requires 0 <= i < |runs| => RangeOf(runs[i], shift))
  }

  lemma {:induction false} RunsAreRanges(runs: seq<Run>, shift: int)
    ensures RunsText(runs, shift) == RangesText(RangesOf(runs, shift), [])
    decreases |runs|
  {
    hide IntText;
    if |runs| > 1 {
      RunsAreRanges(runs[1..], shift);
      assert RangesOf(runs, shift)[1..] == RangesOf(runs[1..], shift);
    }
  }

  // The bits from a place on, printed as numbers from min on, are read back from that place on.
  lemma ShiftedRoundTrip(bits: seq<bool>, from: nat, min: int)
    requires from < |bits| && -TWO31 <= min && min + (|bits| - from) <= TWO31
    ensures ReadText(RunsText(Runs(bits, from), min - from), min, min + (|bits| - from) - 1, from)
         == Some(Falses(from) + bits[from..])
  {
    hide ReadText, RunsText, Runs, RangesText, Separated;
    var runs, shift, max := Runs(bits, from), min - from, min + (|bits| - from) - 1;
    var rs := RangesOf(runs, shift);
    RunsAreRanges(runs, shift);
    RunsAreMaximal(bits, from);
    forall i | 0 <= i < |rs| ensures IsGood(rs[i], min, max) {
      assert runs[i] in runs && Maximal(bits, from, runs[i]);
    }
    RangesRead(rs, [], min, max, from);
    RunsFill(bits, from, shift);
  }

  lemma RunsFill(bits: seq<bool>, from: nat, shift: int)
    requires from < |bits|
    ensures Filled(Falses(|bits|), RangesOf(Runs(bits, from), shift), -shift) == Falses(from) + bits[from..]
  {
    hide Runs, RangesOf;
    var rs := RangesOf(Runs(bits, from), shift);
    forall k | 0 <= k < |bits| ensures Filled(Falses(|bits|), rs, -shift)[k] == (Falses(from) + bits[from..])[k] {
      if k >= from && bits[k] {
        BitInRun(bits, from, shift, k);
      }
      BitOfRun(bits, from, shift, k);
    }
  }

  lemma BitInRun(bits: seq<bool>, from: nat, shift: int, k: nat)
    requires from <= k < |bits| && bits[k]
    ensures InSome(RangesOf(Runs(bits, from), shift), k + shift)
  {
    hide Runs, Separated;
    var runs, rs := Runs(bits, from), RangesOf(Runs(bits, from), shift);
    RunsAreMaximal(bits, from);
    var r :| r in runs && Covers(r, k);
    var i :| 0 <= i < |runs| && runs[i] == r;
    assert rs[i] in rs && IsIn(rs[i], k + shift);
  }

  lemma BitOfRun(bits: seq<bool>, from: nat, shift: int, k: int)
    ensures InSome(RangesOf(Runs(bits, from), shift), k + shift) ==> from <= k < |bits| && bits[k]
  {
    hide Runs, Separated;
    var runs, rs := Runs(bits, from), RangesOf(Runs(bits, from), shift);
    RunsAreMaximal(bits, from);
    if r :| r in rs && IsIn(r, k + shift) {
      var i :| 0 <= i < |rs| && rs[i] == r;
      assert runs[i] in runs && Maximal(bits, from, runs[i]);
    }
  }
}
