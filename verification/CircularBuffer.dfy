/**
 The growing ring of bytes of `lib/circularbuffer.cc`, over a node of the buffer pool
 (`lib/bufferpoolnode.cc`). Sequence numbers are 32-bit words; sizes and positions are not
 bounded.
 */
module Ring {
  import opened Widths
  import opened SequenceNumbers

  type Byte = x: int | 0 <= x < 256

  function Min(a: nat, b: nat): nat {
    if a < b then a else b
  }

  // ----- Windows of a ring --------------------------------------------------------------

  function Wrap(i: nat, capacity: nat): nat {
    if i >= capacity then i - capacity else i
  }

  // The n bytes from a position on, around the end of the ring.
  function Window(ring: seq<Byte>, start: nat, n: nat): (w: seq<Byte>)
    requires n <= |ring| && (n == 0 || start <= |ring|)
    ensures |w| == n && forall i :: 0 <= i < n ==> w[i] == ring[Wrap(start + i, |ring|)]
  {
    seq(n, i requires 0 <= i < n => ring[Wrap(start + i, |ring|)])
  }

  // The array resized, with zeros behind what it held.
  function Resized(ring: seq<Byte>, n: nat): (r: seq<Byte>)
    ensures |r| == n
  {
    seq(n, i requires 0 <= i < n => if i < |ring| then ring[i] else 0)
  }

  // n bytes moved to another position.
  function Moved(ring: seq<Byte>, from: nat, to: nat, n: nat): (r: seq<Byte>)
    requires from + n <= |ring| && to + n <= |ring|
    ensures |r| == |ring|
  {
    seq(|ring|, i requires 0 <= i < |ring| => if to <= i < to + n then ring[i - to + from] else ring[i])
  }

  // Growth at the end of the array, with the bytes from the start on moved along.
  lemma MovedWindow(ring: seq<Byte>, start: nat, n: nat, added: nat)
    requires start <= |ring| && n <= |ring| <= start + n
    ensures Window(Moved(Resized(ring, |ring| + added), start, start + added, |ring| - start), start + added, n)
         == Window(ring, start, n)
  {
  }

  // Growth at the end of the array, behind the data.
  lemma GrownWindow(ring: seq<Byte>, start: nat, n: nat, added: nat)
    requires start + n <= |ring|
    ensures Window(Resized(ring, |ring| + added), start, n) == Window(ring, start, n)
  {
  }

  // What the data becomes when bytes are written behind it, around the end of the ring.
  function Written(ring: seq<Byte>, at: nat, data: seq<Byte>): (r: seq<Byte>)
    requires at < |ring| && |data| <= |ring|
    ensures |r| == |ring|
  {
    seq(|ring|, p requires 0 <= p < |ring| =>
      if at <= p < at + |data| then data[p - at]
      else if p + |ring| < at + |data| then data[p + |ring| - at]
      else ring[p])
  }

  lemma AppendedWindow(ring: seq<Byte>, start: nat, n: nat, data: seq<Byte>)
    requires start < |ring| && n + |data| < |ring|
    ensures Window(Written(ring, Wrap(start + n, |ring|), data), start, n + |data|)
         == Window(ring, start, n) + data
  {
  }

  lemma DroppedWindow(ring: seq<Byte>, start: nat, n: nat, k: nat)
    requires k <= n && ((start < |ring| && n < |ring|) || (start == 0 && n == 0))
    ensures Window(ring, Wrap(start + k, |ring|), n - k) == Window(ring, start, n)[k..]
    ensures Wrap(Wrap(start + k, |ring|) + (n - k), |ring|) == Wrap(start + n, |ring|)
    ensures Wrap(start + k, |ring|) < |ring| || Wrap(start + k, |ring|) == 0
  {
  }

  lemma WrapIs(i: nat, capacity: nat)
    ensures Wrap(i, capacity) == if i >= capacity then i - capacity else i
  {
  }

  // What getData does.
  datatype Reply = Refusal | Outside | Bytes(data: seq<Byte>)

  class BufferPoolNode {
    var buffer: array<Byte>

    constructor (initialSize: nat)
      ensures buffer.Length == initialSize && fresh(buffer)
    {
      buffer := new Byte[initialSize];
    }

    // Keeps the bytes that fit, and fills up with zeros.
    method Resize(newSize: nat)
      modifies this
      ensures fresh(buffer) && buffer[..] == Resized(old(buffer[..]), newSize)
    {
      var was := buffer;
      buffer := new Byte[newSize](i requires 0 <= i reads was => if i < was.Length then was[i] else 0);
    }
  }

  class CircularBuffer {
    const node: BufferPoolNode
    var bufferStart: nat
    var bufferEnd: nat
    var startOffset: Word
    var size: nat
    var blank: bool
    var useStartOffset: bool

    function Capacity(): nat
      reads this, node
    {
      node.buffer.Length
    }

    // A buffer that is not empty memory always has room for one more byte.
    ghost predicate Valid()
      reads this, node, node.buffer
    {
      && (blank ==> size == 0)
      && (size < Capacity() || (blank && size == Capacity()))
      && (bufferStart < Capacity() || bufferStart == 0)
      && bufferEnd == Wrap(bufferStart + size, Capacity())
    }

    function Contents(): (c: seq<Byte>)
      requires Valid()
      reads this, node, node.buffer
    {
      Window(node.buffer[..], bufferStart, size)
    }

    function AsQueue(): Queue
      requires Valid()
      reads this, node, node.buffer
    {
      Queue(Contents(), startOffset, useStartOffset)
    }

    constructor (poolNode: BufferPoolNode)
      ensures Valid() && blank && Contents() == [] && node == poolNode && bufferStart == 0
      ensures startOffset == 0 && !useStartOffset
    {
      node := poolNode;
      bufferStart, bufferEnd, startOffset, size := 0, 0, 0, 0;
      blank, useStartOffset := true, false;
    }

    method IncreaseBufferSize(addSize: nat)
      requires Valid()
      modifies this, node, node.buffer
      ensures fresh(node.buffer) && Capacity() == old(Capacity()) + addSize
      ensures blank == old(blank) && size == old(size) && startOffset == old(startOffset)
      ensures useStartOffset == old(useStartOffset)
      ensures addSize > 0 ==> Valid() && size < Capacity() && Contents() == old(Contents())
    {
      hide Window, Moved, Resized;
      var prevSize := Capacity();
      ghost var ring := node.buffer[..];
      node.Resize(prevSize + addSize);
      if (bufferEnd < bufferStart && size == 0) || (bufferEnd <= bufferStart && size > 0) {
        var newStart := bufferStart + addSize;
        MoveBytes(node.buffer, bufferStart, newStart, prevSize - bufferStart);
        MovedWindow(ring, bufferStart, size, addSize);
        bufferStart := newStart;
      } else {
        GrownWindow(ring, bufferStart, size, addSize);
      }
    }

    method RemoveDataAtBeginning(newStart: Word)
      requires Valid()
      modifies this
      ensures Valid()
      ensures var n := Min(Sub32(newStart, old(startOffset)), |old(Contents())|);
              Contents() == old(Contents())[n..]
              && (useStartOffset ==> startOffset == Add32(old(startOffset), n))
              && bufferStart == Wrap(old(bufferStart) + n, Capacity())
      ensures !useStartOffset ==> startOffset == old(startOffset)
      ensures useStartOffset == old(useStartOffset) && blank == old(blank)
    {
      hide Window, Sub32, Add32, Wrap;
      var nbRemoved: int := Sub32(newStart, startOffset);
      if nbRemoved == 0 {
        WrapIs(bufferStart, Capacity());
        return;
      }
      if nbRemoved > size {
        nbRemoved := size;
      }
      if useStartOffset {
        SetStartOffset(Add32(startOffset, nbRemoved));
      }
      Advance(nbRemoved);
    }

    // The start of the data moves on, around the end of the array.
    method Advance(nbRemoved: nat)
      requires Valid() && nbRemoved <= size
      modifies this`bufferStart, this`size
      ensures Valid() && Contents() == old(Contents())[nbRemoved..]
      ensures bufferStart == Wrap(old(bufferStart) + nbRemoved, Capacity())
    {
      hide Window, Wrap;
      ghost var ring := node.buffer[..];
      DroppedWindow(ring, bufferStart, size, nbRemoved);
      WrapIs(bufferStart + nbRemoved, Capacity());
      bufferStart := bufferStart + nbRemoved;
      if bufferStart >= Capacity() {
        bufferStart := bufferStart - Capacity();
      }
      size := size - nbRemoved;
      assert node.buffer[..] == ring;
    }

    method SetStartOffset(offset: Word)
      modifies this`startOffset, this`useStartOffset
      ensures startOffset == offset && useStartOffset
    {
      startOffset, useStartOffset := offset, true;
    }

    method AddDataAtEnd(data: seq<Byte>)
      requires Valid()
      modifies this, node, node.buffer
      ensures Valid() && !blank && size < Capacity()
      ensures Contents() == old(Contents()) + data
      ensures startOffset == old(startOffset) && useStartOffset == old(useStartOffset)
      ensures node.buffer == old(node.buffer) || fresh(node.buffer)
      ensures old(size) + |data| < old(Capacity()) ==>
        bufferStart == old(bufferStart) && node.buffer == old(node.buffer)
    {
      hide Window, Written;
      var length := |data|;
      if size + length >= Capacity() {
        IncreaseBufferSize(size + length - Capacity() + 1);
      }
      blank := false;
      var addPosition := bufferEnd;
      var newEnd := bufferEnd + length;
      if newEnd >= Capacity() {
        newEnd := newEnd - Capacity();
      }
      AppendedWindow(node.buffer[..], bufferStart, size, data);
      CopyAround(data, node.buffer, addPosition);
      bufferEnd := newEnd;
      size := size + length;
    }

    predicate Refused(start: Word)
      reads this
    {
      SeqLt(start, startOffset) || Sub32(start, startOffset) > size
    }

    // The start index is not wrapped: behind the end of the array, the length of the first copy
    // wraps around instead. A request in the array is copied from the ring, and bytes asked for
    // behind the end of the data are whatever the ring holds there.
    method GetData(start: Word, length: nat) returns (r: Reply)
      requires Valid()
      ensures r.Refusal? <==> Refused(start)
      ensures r.Outside? <==> !Refused(start) && length > 0 && bufferStart + Sub32(start, startOffset) > Capacity()
      ensures var rel := Sub32(start, startOffset);
              r.Bytes? ==> |r.data| == Min(length, size)
                           && (rel + |r.data| <= size ==> r.data == Contents()[rel..rel + |r.data|])
      ensures var rel := Sub32(start, startOffset);
              r.Bytes? && length > 0 ==> r.data == Window(node.buffer[..], bufferStart + rel, Min(length, size))
    {
      hide Window, SeqLt, Sub32;
      if SeqLt(start, startOffset) || Sub32(start, startOffset) > size {
        return Refusal;
      }
      if length == 0 {
        return Bytes([]);
      }
      var from := Sub32(start, startOffset) + bufferStart;
      var n := if length > size then size else length;
      if from > Capacity() {
        return Outside;
      }
      var data := ReadAround(node.buffer, from, n);
      SliceOfWindow(node.buffer[..], bufferStart, size, Sub32(start, startOffset), n);
      r := Bytes(data);
    }
  }

  // A request inside the data whose start index is not in the array: in six bytes, five are
  // written, four are removed and four are written around the end. The fourth is asked for.
  method RequestOutside() returns (r: Reply, held: seq<Byte>)
    ensures |held| == 5 && r == Outside
  {
    var node := new BufferPoolNode(6);
    var buffer := new CircularBuffer(node);
    buffer.AddDataAtEnd([1, 2, 3, 4, 5]);
    buffer.RemoveDataAtBeginning(4);
    buffer.AddDataAtEnd([6, 7, 8, 9]);
    held := buffer.Contents();
    r := buffer.GetData(3, 1);
  }

  // ----- Runs ---------------------------------------------------------------------------

  datatype Op = Add(data: seq<Byte>) | Remove(newStart: Word) | Start(offset: Word)

  // A plain queue of bytes, the sequence number of its first byte, and whether that moves.
  datatype Queue = Queue(bytes: seq<Byte>, offset: Word, moves: bool)

  // How many bytes an operation removes.
  function Taken(q: Queue, op: Op): (n: nat)
    ensures n <= |q.bytes| && n < TWO32
  {
    if op.Remove? then Min(Sub32(op.newStart, q.offset), |q.bytes|) else 0
  }

  // To remove up to a sequence number is to remove as many bytes as it is ahead, or all.
  lemma TakenAhead(q: Queue, n: nat)
    requires n < TWO32
    ensures Taken(q, Remove(ToWord(q.offset + n))) == if n < |q.bytes| then n else |q.bytes|
  {
  }

  function Step(q: Queue, op: Op): Queue {
    match op
    case Add(data) => q.(bytes := q.bytes + data)
    case Remove(_) =>
      var n := Taken(q, op);
      q.(bytes := q.bytes[n..], offset := if q.moves then Add32(q.offset, n) else q.offset)
    case Start(offset) => q.(offset := offset, moves := true)
  }

  function After(q: Queue, ops: seq<Op>): Queue
    decreases |ops|, q
  {
    if |ops| == 0 then q else After(Step(q, ops[0]), ops[1..])
  }

  // All the bytes that a run adds, and how many it removes.
  function Added(ops: seq<Op>): seq<Byte>
    decreases |ops|
  {
    if |ops| == 0 then [] else Given(ops[0]) + Added(ops[1..])
  }

  function Given(op: Op): seq<Byte> {
    if op.Add? then op.data else []
  }

  function Removed(q: Queue, ops: seq<Op>): nat
    decreases |ops|, q
  {
    if |ops| == 0 then 0 else Taken(q, ops[0]) + Removed(Step(q, ops[0]), ops[1..])
  }

  // No byte is lost, made up or moved: what was there and what was added, less the first bytes.
  lemma {:induction false} NothingLost(q: Queue, ops: seq<Op>)
    ensures Removed(q, ops) <= |q.bytes + Added(ops)|
    ensures After(q, ops).bytes == (q.bytes + Added(ops))[Removed(q, ops)..]
    decreases |ops|
  {
    hide Taken, Given, Step;
    if |ops| == 0 {
      assert q.bytes + [] == q.bytes;
    } else {
      var q', n, rest := Step(q, ops[0]), Taken(q, ops[0]), Added(ops[1..]);
      NothingLost(q', ops[1..]);
      StepBytes(q, ops[0], rest);
      DropTwice(q.bytes + (Given(ops[0]) + rest), n, Removed(q', ops[1..]));
    }
  }

  // One operation takes bytes away in front, and puts others behind.
  lemma StepBytes(q: Queue, op: Op, rest: seq<Byte>)
    ensures var all := q.bytes + (Given(op) + rest);
            Taken(q, op) <= |all| && Step(q, op).bytes + rest == all[Taken(q, op)..]
  {
    assert [] + rest == rest;
    if op.Add? {
      assert q.bytes + op.data + rest == q.bytes + (op.data + rest);
    }
  }

  lemma DropTwice(c: seq<Byte>, k: nat, m: nat)
    requires k <= |c| && m <= |c[k..]|
    ensures c[k..][m..] == c[k + m..]
  {
  }

  lemma TakenWhen(q: Queue, op: Op)
    ensures Taken(q, op) <= |q.bytes| && (!op.Remove? ==> Taken(q, op) == 0)
  {
  }

  // The offset counts the bytes removed, as long as nothing else sets it.
  lemma {:induction false} OffsetCounts(q: Queue, ops: seq<Op>)
    requires forall op :: op in ops ==> !op.Start?
    ensures After(q, ops).moves == q.moves
    ensures After(q, ops).offset == if q.moves then ToWord(q.offset + Removed(q, ops)) else q.offset
    decreases |ops|
  {
    hide Taken, ToWord, Add32;
    if |ops| == 0 {
      ToWordOfWord(q.offset);
    } else {
      var n, q' := Taken(q, ops[0]), Step(q, ops[0]);
      TakenWhen(q, ops[0]);
      assert ops[0] in ops && forall op :: op in ops[1..] ==> op in ops;
      OffsetCounts(q', ops[1..]);
      if q.moves {
        TakenIsWord(q, ops[0]);
        OffsetStep(q.offset, n, Removed(q', ops[1..]));
      }
    }
  }

  lemma TakenIsWord(q: Queue, op: Op)
    ensures Taken(q, op) < TWO32
  {
  }

  lemma ToWordOfWord(a: Word)
    ensures ToWord(a) == a && ToWord(a + 0) == a
  {
  }

  lemma OffsetStep(a: Word, n: Word, m: nat)
    ensures ToWord(Add32(a, n) + m) == ToWord(a + (n + m))
    ensures n == 0 ==> Add32(a, n) == a
  {
    assert Add32(a, n) == ToWord(a + n);
    ToWordAdd(a + n, m);
  }

  method Perform(buffer: CircularBuffer, op: Op)
    requires buffer.Valid()
    modifies buffer, buffer.node, buffer.node.buffer
    ensures buffer.Valid() && buffer.AsQueue() == Step(old(buffer.AsQueue()), op)
    ensures buffer.node.buffer == old(buffer.node.buffer) || fresh(buffer.node.buffer)
  {
    match op {
      case Add(data) =>
        buffer.AddDataAtEnd(data);
      case Remove(newStart) =>
        buffer.RemoveDataAtBeginning(newStart);
      case Start(offset) =>
        buffer.SetStartOffset(offset);
    }
  }

  // Any run of operations is that run on a plain queue: its contents are what was there and
  // what was added, less as many first bytes as were removed.
  method Run(buffer: CircularBuffer, ops: seq<Op>)
    requires buffer.Valid()
    modifies buffer, buffer.node, buffer.node.buffer
    ensures buffer.Valid() && buffer.AsQueue() == After(old(buffer.AsQueue()), ops)
    ensures var all, n := old(buffer.Contents()) + Added(ops), Removed(old(buffer.AsQueue()), ops);
            n <= |all| && buffer.Contents() == all[n..]
  {
    hide Step;
    ghost var q := buffer.AsQueue();
    NothingLost(q, ops);
    var i: nat := 0;
    assert ops[0..] == ops;
    while i < |ops|
      invariant i <= |ops| && buffer.Valid()
      invariant buffer.node.buffer == old(buffer.node.buffer) || fresh(buffer.node.buffer)
      invariant After(buffer.AsQueue(), ops[i..]) == After(q, ops)
    {
      assert ops[i..][1..] == ops[i + 1..] && ops[i..][0] == ops[i];
      Perform(buffer, ops[i]);
      i := i + 1;
    }
  }

  // All the bytes, or those that fit before the end of the array and the rest at its start.
  method CopyAround(data: seq<Byte>, a: array<Byte>, addPosition: nat)
    requires addPosition < a.Length && |data| <= a.Length
    modifies a
    ensures a[..] == Written(old(a[..]), addPosition, data)
  {
    var firstEnd := addPosition + |data|;
    var remainToAdd, firstAddLength := 0, |data|;
    if firstEnd >= a.Length {
      remainToAdd := firstEnd - a.Length;
      firstAddLength := |data| - remainToAdd;
    }
    CopyBytes(data[..firstAddLength], a, addPosition);
    if remainToAdd > 0 {
      CopyBytes(data[firstAddLength..], a, 0);
    }
  }

  method ReadAround(a: array<Byte>, from: nat, n: nat) returns (data: seq<Byte>)
    requires from <= a.Length && n <= a.Length
    ensures data == Window(a[..], from, n)
  {
    var firstLength, secondLength := n, 0;
    if from + firstLength >= a.Length {
      firstLength := a.Length - from;
      secondLength := n - firstLength;
    }
    data := a[from..from + firstLength];
    if secondLength > 0 {
      data := data + a[..secondLength];
    }
  }

  lemma SliceOfWindow(ring: seq<Byte>, start: nat, size: nat, rel: nat, n: nat)
    requires size <= |ring| && start + rel <= |ring| && n <= size
    ensures rel + n <= size ==> Window(ring, start + rel, n) == Window(ring, start, size)[rel..rel + n]
  {
  }

  method MoveBytes(a: array<Byte>, from: nat, to: nat, n: nat)
    requires from <= to && to + n <= a.Length
    modifies a
    ensures a[..] == Moved(old(a[..]), from, to, n)
  {
    var k := n;
    while k > 0
      invariant 0 <= k <= n
      invariant forall i :: 0 <= i < a.Length ==>
        a[i] == if to + k <= i < to + n then old(a[i - to + from]) else old(a[i])
    {
      k := k - 1;
      a[to + k] := a[from + k];
    }
  }

  method CopyBytes(data: seq<Byte>, a: array<Byte>, to: nat)
    requires to + |data| <= a.Length
    modifies a
    ensures forall i :: 0 <= i < a.Length ==>
      a[i] == if to <= i < to + |data| then data[i - to] else old(a[i])
  {
    var k: nat := 0;
    while k < |data|
      invariant k <= |data|
      invariant forall i :: 0 <= i < a.Length ==> a[i] == if to <= i < to + k then data[i - to] else old(a[i])
    {
      a[to + k] := data[k];
      k := k + 1;
    }
  }
}
