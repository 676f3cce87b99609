/**
 Position mapping of modified byte streams: `lib/bytestreammaintainer.cc`. A red-black tree is
 the sequence of its nodes in order. Sequence numbers are compared as in section 3.4 of RFC
 9293; inside one sequence window they act like integers.
 */
module ByteStream {
  import opened Widths
  import opened SequenceNumbers

  // A position in the stream, and what is added to the positions from there on.
  datatype Node = Node(key: int, offset: int)

  // ----- Positions that are integers ----------------------------------------------------

  ghost predicate Ordered(t: seq<Node>) {
    forall i, j :: 0 <= i < j < |t| ==> t[i].key < t[j].key
  }

  // The last node at or before p, or -1.
  function Seek(t: seq<Node>, p: int): (i: int)
    ensures -1 <= i < |t| && (i >= 0 ==> t[i].key <= p)
    ensures i + 1 < |t| ==> t[i + 1].key > p
    decreases |t|, p
  {
    if |t| == 0 then -1 else if t[|t| - 1].key <= p then |t| - 1
    else
      var i := Seek(t[..|t| - 1], p);
      i
  }

  function OffsetBefore(t: seq<Node>, i: int): int
    requires i <= |t|
  {
    if i <= 0 then 0 else t[i - 1].offset
  }

  // The greatest position that the predecessor of node i can give.
  function Bound(t: seq<Node>, i: int): int
    requires 0 <= i < |t|
  {
    t[i].key + OffsetBefore(t, i)
  }

  function Max(a: int, b: int): int {
    if a < b then b else a
  }

  function MappedBy(t: seq<Node>, i: int, p: int): int
    requires i < |t|
  {
    if i < 0 then p else Max(p + t[i].offset, Bound(t, i))
  }

  function Mapped(t: seq<Node>, seek: int, p: int): int {
    MappedBy(t, Seek(t, seek), p)
  }

  function MapAck(t: seq<Node>, p: int): int {
    Mapped(t, p, p)
  }

  // A sequence number is not moved by the modification at that very position.
  function MapSeq(t: seq<Node>, p: int): int {
    Mapped(t, p - 1, p)
  }

  // x in front of element i.
  function PutAt<T>(s: seq<T>, i: nat, x: T): (r: seq<T>)
    requires i <= |s|
    ensures |r| == |s| + 1
    ensures forall k :: 0 <= k < |r| ==> r[k] == if k < i then s[k] else if k == i then x else s[k - 1]
  {
    seq(|s| + 1, k requires 0 <= k <= |s| => if k < i then s[k] else if k == i then x else s[k - 1])
  }

  function Inserted(t: seq<Node>, k: int, offset: int): (r: seq<Node>)
    requires Ordered(t)
    ensures Ordered(r)
  {
    hide Seek, PutAt, Ordered;
    var i, node := Seek(t, k), Node(k, offset);
    InsertedOrdered(t, i, node);
    SeekSplits(t, k);
    if i >= 0 && t[i].key == k then t[i := node] else PutAt(t, i + 1, node)
  }

  lemma InsertedOrdered(t: seq<Node>, i: int, node: Node)
    requires Ordered(t) && -1 <= i < |t|
    ensures i >= 0 && t[i].key == node.key ==> Ordered(t[i := node])
    ensures (i >= 0 ==> t[i].key < node.key) && (i + 1 < |t| ==> node.key < t[i + 1].key) ==>
      Ordered(PutAt(t, i + 1, node))
  {
  }

  lemma SeekSplits(t: seq<Node>, p: int)
    requires Ordered(t)
    ensures forall j :: 0 <= j < |t| ==> (t[j].key <= p <==> j <= Seek(t, p))
  {
  }

  lemma SeekIs(t: seq<Node>, p: int, i: int)
    requires Ordered(t) && -1 <= i < |t|
    requires i >= 0 ==> t[i].key <= p
    requires i + 1 < |t| ==> t[i + 1].key > p
    ensures Seek(t, p) == i
  {
    SeekSplits(t, p);
  }

  // The last node at or before a position moves it by its offset, but not below where the
  // offset of the node in front would have put the start of the last node; a position in front
  // of all nodes stays. A sequence number goes by the position just before it.
  lemma MovedByLast(t: seq<Node>, p: int, i: int)
    requires Ordered(t) && -1 <= i < |t| && forall j :: 0 <= j < |t| ==> (t[j].key <= p <==> j <= i)
    ensures i == -1 ==> MapAck(t, p) == p && MapSeq(t, p + 1) == p + 1
    ensures i == 0 ==>
      && MapAck(t, p) == (if t[0].offset < t[0].key - p then t[0].key else p + t[0].offset)
      && MapSeq(t, p + 1) == (if t[0].offset < t[0].key - p - 1 then t[0].key else p + 1 + t[0].offset)
    ensures i > 0 ==>
      var least := t[i].key + t[i - 1].offset;
      && MapAck(t, p) == (if p + t[i].offset < least then least else p + t[i].offset)
      && MapSeq(t, p + 1) == (if p + 1 + t[i].offset < least then least else p + 1 + t[i].offset)
  {
    hide Seek;
    SeekIs(t, p, i);
  }

  // ----- Insertion ----------------------------------------------------------------------

  // What maps a position is the last node at or before it and the one before that.
  lemma InsertedSeek(t: seq<Node>, k: int, offset: int, p: int)
    requires Ordered(t) && p < k
    ensures var i, r := Seek(t, p), Inserted(t, k, offset);
            Seek(r, p) == i && forall j :: 0 <= j <= i ==> r[j] == t[j]
  {
    hide Seek, Inserted;
    var i, r := Seek(t, p), Inserted(t, k, offset);
    InsertedBefore(t, k, offset);
    SeekSplits(t, p);
    SeekIs(r, p, i);
  }

  // The nodes before k stay where they are, and the others come behind.
  lemma InsertedBefore(t: seq<Node>, k: int, offset: int)
    requires Ordered(t)
    ensures var r := Inserted(t, k, offset);
            |t| <= |r| && (forall j :: 0 <= j < |t| && t[j].key < k ==> r[j] == t[j])
            && (forall j :: 0 <= j < |r| && !(j < |t| && t[j].key < k) ==> r[j].key >= k)
  {
    hide Seek;
    SeekSplits(t, k);
  }

  // Inserting a node changes no acknowledgement before it and no sequence number up to it.
  lemma InsertedMaps(t: seq<Node>, k: int, offset: int, p: int)
    requires Ordered(t)
    ensures p < k ==> MapAck(Inserted(t, k, offset), p) == MapAck(t, p)
    ensures p <= k ==> MapSeq(Inserted(t, k, offset), p) == MapSeq(t, p)
  {
    hide Seek, Inserted, Mapped;
    var r := Inserted(t, k, offset);
    if p < k {
      InsertedSeek(t, k, offset, p);
      SameMapped(t, r, p, p);
    }
    if p <= k {
      InsertedSeek(t, k, offset, p - 1);
      SameMapped(t, r, p - 1, p);
    }
  }

  lemma SameMapped(t: seq<Node>, r: seq<Node>, seek: int, p: int)
    requires Seek(r, seek) == Seek(t, seek) && forall j :: 0 <= j <= Seek(t, seek) ==> r[j] == t[j]
    ensures Mapped(r, seek, p) == Mapped(t, seek, p)
  {
    hide Seek;
  }

  // The node is in the tree, in the place of one with the same key, and nothing else changed.
  lemma InsertedNodes(t: seq<Node>, k: int, offset: int, node: Node)
    requires Ordered(t)
    ensures node in Inserted(t, k, offset)
       <==> (node == Node(k, offset) || (node in t && node.key != k))
  {
    hide Seek, PutAt;
    var i, added := Seek(t, k), Node(k, offset);
    SeekSplits(t, k);
    if i >= 0 && t[i].key == k {
      ReplacedMembers(t, i, added, node);
    } else {
      AddedMembers(t, i + 1, added, node);
      NoSuchKey(t, k, i);
    }
  }

  lemma NoSuchKey(t: seq<Node>, k: int, i: int)
    requires -1 <= i < |t| && Ordered(t) && (i >= 0 ==> t[i].key < k) && (i + 1 < |t| ==> k < t[i + 1].key)
    ensures forall node :: node in t ==> node.key != k
  {
    forall j | 0 <= j < |t| ensures t[j].key != k {
    }
  }

  lemma ReplacedMembers(t: seq<Node>, i: nat, added: Node, node: Node)
    requires Ordered(t) && i < |t| && added.key == t[i].key
    ensures node in t[i := added] <==> (node == added || (node in t && node.key != added.key))
  {
    var r := t[i := added];
    assert r[i] == added;
    if node in t && node.key != added.key {
      var j :| 0 <= j < |t| && t[j] == node;
      assert r[j] == node;
    }
    if node in r && node != added {
      var j :| 0 <= j < |r| && r[j] == node;
      assert t[j] == node;
    }
  }

  lemma AddedMembers(t: seq<Node>, i: nat, added: Node, node: Node)
    requires i <= |t|
    ensures node in PutAt(t, i, added) <==> (node == added || node in t)
  {
    var r := PutAt(t, i, added);
    assert r[i] == added;
    if node in t {
      var j :| 0 <= j < |t| && t[j] == node;
      assert r[if j < i then j else j + 1] == node;
    }
  }

  // ----- Order --------------------------------------------------------------------------

  // The condition under which the map of acknowledgements keeps their order: where node i + 1
  // takes over, the bound of node i is not above what comes next.
  predicate AckStep(t: seq<Node>, i: nat)
    requires i < |t| - 1
  {
    Bound(t, i) <= t[i + 1].key + Max(t[i].offset, t[i + 1].offset)
  }

  predicate SeqStep(t: seq<Node>, i: nat)
    requires i < |t| - 1
  {
    Bound(t, i) <= Max(t[i + 1].key + 1 + t[i + 1].offset, t[i + 1].key + t[i].offset)
  }

  ghost predicate AckSteps(t: seq<Node>) {
    forall i :: 0 <= i < |t| - 1 ==> AckStep(t, i)
  }

  ghost predicate SeqSteps(t: seq<Node>) {
    forall i :: 0 <= i < |t| - 1 ==> SeqStep(t, i)
  }

  ghost predicate AckMonotone(t: seq<Node>) {
    forall p, q :: p <= q ==> MapAck(t, p) <= MapAck(t, q)
  }

  ghost predicate SeqMonotone(t: seq<Node>) {
    forall p, q :: p <= q ==> MapSeq(t, p) <= MapSeq(t, q)
  }

  // One step of the map that seeks a distance back (0 or 1) keeps the order.
  lemma OneStep(t: seq<Node>, back: int, p: int)
    requires Ordered(t) && 0 <= back <= 1
    requires back == 0 ==> AckSteps(t)
    requires back == 1 ==> SeqSteps(t)
    ensures Mapped(t, p - back, p) <= Mapped(t, p + 1 - back, p + 1)
  {
    hide *;
    SeekNext(t, p - back);
    var i := Seek(t, p - back);
    MappedAre(t, p - back, p);
    MappedAre(t, p + 1 - back, p + 1);
    SameNodeStep(t, i, p);
    if i + 1 < |t| && t[i + 1].key == p + 1 - back {
      NextNodeStep(t, i, back, p);
    }
  }

  lemma MappedAre(t: seq<Node>, seek: int, p: int)
    ensures Mapped(t, seek, p) == MappedBy(t, Seek(t, seek), p)
  {
    hide Seek, MappedBy;
  }

  lemma SameNodeStep(t: seq<Node>, i: int, p: int)
    requires i < |t|
    ensures MappedBy(t, i, p) <= MappedBy(t, i, p + 1)
  {
  }

  lemma NextNodeStep(t: seq<Node>, i: int, back: int, p: int)
    requires -1 <= i < |t| - 1 && 0 <= back <= 1 && t[i + 1].key == p + 1 - back
    requires back == 0 ==> AckSteps(t)
    requires back == 1 ==> SeqSteps(t)
    ensures MappedBy(t, i, p) <= MappedBy(t, i + 1, p + 1)
  {
    assert Bound(t, i + 1) == t[i + 1].key + OffsetBefore(t, i + 1);
    if i >= 0 {
      assert if back == 0 then AckStep(t, i) else SeqStep(t, i);
    }
  }

  lemma SeekNext(t: seq<Node>, p: int)
    requires Ordered(t)
    ensures var i, j := Seek(t, p), Seek(t, p + 1);
            j == i || (j == i + 1 && t[j].key == p + 1)
  {
    hide Seek;
    SeekSplits(t, p);
    SeekSplits(t, p + 1);
  }

  lemma {:induction false} ManySteps(t: seq<Node>, back: int, p: int, q: int)
    requires Ordered(t) && 0 <= back <= 1 && p <= q
    requires back == 0 ==> AckSteps(t)
    requires back == 1 ==> SeqSteps(t)
    ensures Mapped(t, p - back, p) <= Mapped(t, q - back, q)
    decreases q - p
  {
    hide Mapped, AckSteps, SeqSteps;
    if p < q {
      ManySteps(t, back, p, q - 1);
      OneStep(t, back, q - 1);
    }
  }

  lemma AckMonotoneIff(t: seq<Node>)
    requires Ordered(t)
    ensures AckMonotone(t) <==> AckSteps(t)
  {
    hide Seek;
    if AckSteps(t) {
      forall p, q | p <= q ensures MapAck(t, p) <= MapAck(t, q) {
        ManySteps(t, 0, p, q);
      }
    }
    if AckMonotone(t) {
      forall i | 0 <= i < |t| - 1 ensures AckStep(t, i) {
        var p := t[i + 1].key - 1;
        SeekIs(t, p, i);
        SeekIs(t, p + 1, i + 1);
        assert MapAck(t, p) <= MapAck(t, p + 1);
      }
    }
  }

  lemma SeqMonotoneIff(t: seq<Node>)
    requires Ordered(t)
    ensures SeqMonotone(t) <==> SeqSteps(t)
  {
    hide Seek;
    if SeqSteps(t) {
      forall p, q | p <= q ensures MapSeq(t, p) <= MapSeq(t, q) {
        ManySteps(t, 1, p, q);
      }
    }
    if SeqMonotone(t) {
      forall i | 0 <= i < |t| - 1 ensures SeqStep(t, i) {
        var p := t[i + 1].key;
        SeekIs(t, p - 1, i);
        SeekIs(t, p, i + 1);
        assert MapSeq(t, p) <= MapSeq(t, p + 1);
      }
    }
  }

  // Where an insertion puts its node.
  function PlaceOf(t: seq<Node>, k: int): (c: nat)
    ensures c <= |t|
  {
    var i := Seek(t, k);
    if i >= 0 && t[i].key == k then i else i + 1
  }

  // Away from that place the nodes are the same, from there on as many places further as there
  // are more nodes.
  lemma InsertedAt(t: seq<Node>, k: int, offset: int)
    requires Ordered(t)
    ensures var r, c := Inserted(t, k, offset), PlaceOf(t, k);
            |t| <= |r| <= |t| + 1 && c < |r| && r[c] == Node(k, offset)
            && forall j :: 0 <= j < |r| && j != c ==> j - (|r| - |t|) < |t| && r[j] == t[if j < c then j else j - (|r| - |t|)]
  {
    hide Seek;
  }

  // An insertion keeps the order of a map exactly when the steps next to its node are kept.
  lemma InsertionKeepsAckIff(t: seq<Node>, k: int, offset: int)
    requires Ordered(t) && AckMonotone(t)
    ensures var r, c := Inserted(t, k, offset), PlaceOf(t, k);
            AckMonotone(r) <==> forall j :: c - 1 <= j <= c + 1 && 0 <= j < |r| - 1 ==> AckStep(r, j)
  {
    hide AckMonotone, Inserted, PlaceOf, Ordered, AckStep;
    var r, c := Inserted(t, k, offset), PlaceOf(t, k);
    AckMonotoneIff(t);
    AckMonotoneIff(r);
    forall j | 0 <= j < |r| - 1 && !(c - 1 <= j <= c + 1) ensures AckStep(r, j) {
      var i := FarStep(t, k, offset, j);
      assert AckStep(t, i);
      SameStep(t, i, r, j);
    }
  }

  lemma InsertionKeepsSeqIff(t: seq<Node>, k: int, offset: int)
    requires Ordered(t) && SeqMonotone(t)
    ensures var r, c := Inserted(t, k, offset), PlaceOf(t, k);
            SeqMonotone(r) <==> forall j :: c - 1 <= j <= c + 1 && 0 <= j < |r| - 1 ==> SeqStep(r, j)
  {
    hide SeqMonotone, Inserted, PlaceOf, Ordered, SeqStep;
    var r, c := Inserted(t, k, offset), PlaceOf(t, k);
    SeqMonotoneIff(t);
    SeqMonotoneIff(r);
    forall j | 0 <= j < |r| - 1 && !(c - 1 <= j <= c + 1) ensures SeqStep(r, j) {
      var i := FarStep(t, k, offset, j);
      assert SeqStep(t, i);
      SameStep(t, i, r, j);
    }
  }

  // The step before the insertion that step j is.
  lemma FarStep(t: seq<Node>, k: int, offset: int, j: nat) returns (i: nat)
    requires Ordered(t) && j < |Inserted(t, k, offset)| - 1
    requires j < PlaceOf(t, k) - 1 || j > PlaceOf(t, k) + 1
    ensures var r := Inserted(t, k, offset);
            i < |t| - 1 && r[j] == t[i] && r[j + 1] == t[i + 1] && OffsetBefore(r, j) == OffsetBefore(t, i)
  {
    hide Inserted, PlaceOf, Ordered;
    InsertedAt(t, k, offset);
    var r := Inserted(t, k, offset);
    i := if j < PlaceOf(t, k) then j else j - (|r| - |t|);
    assert j > 0 ==> r[j - 1] == t[i - 1];
  }

  lemma SameStep(t: seq<Node>, i: nat, r: seq<Node>, j: nat)
    requires i < |t| - 1 && j < |r| - 1
    requires r[j] == t[i] && r[j + 1] == t[i + 1] && OffsetBefore(r, j) == OffsetBefore(t, i)
    ensures AckStep(r, j) == AckStep(t, i) && SeqStep(r, j) == SeqStep(t, i)
  {
  }

  // For one: ten bytes less from position 0 on, and no more changed at position 1. The
  // predecessor holds position 0 back, and nothing holds position 1 back.
  lemma NotMonotone()
    ensures var t := [Node(0, -10), Node(1, -10)];
            Ordered(t) && MapAck(t, 0) == 0 && MapAck(t, 1) == -9 && MapSeq(t, 1) == 0 && MapSeq(t, 2) == -8
  {
    hide Seek;
    var t := [Node(0, -10), Node(1, -10)];
    SeekIs(t, 0, 0);
    SeekIs(t, 1, 1);
  }

  // Bounds that do not pass the end of the node's own stretch are enough for both.
  lemma BoundedIsMonotone(t: seq<Node>)
    requires Ordered(t)
    requires forall i :: 0 <= i < |t| - 1 ==> Bound(t, i) <= t[i + 1].key + t[i].offset
    ensures AckMonotone(t) && SeqMonotone(t)
  {
    hide AckMonotone, SeqMonotone;
    AckMonotoneIff(t);
    SeqMonotoneIff(t);
  }

  // ----- Sequence numbers ---------------------------------------------------------------

  // compareKeys.
  function CompareKeys(a: Word, b: Word): int {
    if Ahead(a, b) > 0 then 1 else if SeqLt(a, b) then -1 else 0
  }

  datatype WordNode = WordNode(key: Word, offset: int)

  // The tree that the code has for nodes at integer positions.
  function Words(t: seq<Node>): (w: seq<WordNode>)
    ensures |w| == |t|
    ensures forall i :: 0 <= i < |t| ==> w[i] == WordNode(ToWord(t[i].key), t[i].offset)
  {
    seq(|t|, i requires 0 <= i < |t| => WordNode(ToWord(t[i].key), t[i].offset))
  }

  function SeekWord(t: seq<WordNode>, p: Word): (i: int)
    ensures -1 <= i < |t|
    decreases |t|, p
  {
    if |t| == 0 then -1
    else if CompareKeys(t[|t| - 1].key, p) != 1 then |t| - 1
    else
      var i := SeekWord(t[..|t| - 1], p);
      i
  }

  function MappedWord(t: seq<WordNode>, seek: Word, p: Word): Word {
    var i := SeekWord(t, seek);
    if i < 0 then p
    else
      var newPosition := ToWord(p + t[i].offset);
      var predBound := ToWord(t[i].key + (if i > 0 then t[i - 1].offset else 0));
      if SeqLt(newPosition, predBound) then predBound else newPosition
  }

  function InsertedWord(t: seq<WordNode>, k: Word, offset: int): seq<WordNode> {
    var i := SeekWord(t, k);
    if i >= 0 && CompareKeys(t[i].key, k) == 0 then t[i := WordNode(k, offset)]
    else PutAt(t, i + 1, WordNode(k, offset))
  }

  // The nodes are in the sequence window around p.
  ghost predicate InWindow(t: seq<Node>, p: int) {
    forall i :: 0 <= i < |t| ==> -TWO31 <= t[i].key - p < TWO31
  }

  lemma CompareInWindow(x: int, y: int)
    requires -TWO31 <= x - y < TWO31
    ensures CompareKeys(ToWord(x), ToWord(y)) == if x > y then 1 else if x < y then -1 else 0
  {
    hide ToWord;
    AheadOf(x, y);
  }

  lemma {:induction false} SeekInWindow(t: seq<Node>, p: int)
    requires InWindow(t, p)
    ensures SeekWord(Words(t), ToWord(p)) == Seek(t, p)
    decreases |t|
  {
    hide ToWord, CompareKeys;
    if |t| > 0 {
      var init := t[..|t| - 1];
      CompareInWindow(t[|t| - 1].key, p);
      SeekInWindow(init, p);
      assert Words(t)[..|t| - 1] == Words(init);
    }
  }

  // Inside one window the words are mapped as the integers they stand for are.
  lemma MappedInWindow(t: seq<Node>, seek: int, p: int)
    requires InWindow(t, seek)
    requires var i := Seek(t, seek); i >= 0 ==> -TWO31 <= p + t[i].offset - Bound(t, i) < TWO31
    ensures MappedWord(Words(t), ToWord(seek), ToWord(p)) == ToWord(Mapped(t, seek, p))
  {
    hide ToWord, Seek, SeekWord, Ahead;
    SeekInWindow(t, seek);
    var i := Seek(t, seek);
    if i >= 0 {
      ToWordAdd(p, t[i].offset);
      ToWordAdd(t[i].key, OffsetBefore(t, i));
      AheadOf(p + t[i].offset, Bound(t, i));
    }
  }

  function WordOf(node: Node): WordNode {
    WordNode(ToWord(node.key), node.offset)
  }

  lemma InsertedInWindow(t: seq<Node>, k: int, offset: int)
    requires Ordered(t) && InWindow(t, k)
    ensures InsertedWord(Words(t), ToWord(k), offset) == Words(Inserted(t, k, offset))
  {
    hide ToWord, Seek, SeekWord, CompareKeys, Words;
    SeekInWindow(t, k);
    var i, node := Seek(t, k), Node(k, offset);
    if i >= 0 {
      CompareInWindow(t[i].key, k);
    }
    if i >= 0 && t[i].key == k {
      WordsReplaced(t, i, node);
    } else {
      WordsInserted(t, i + 1, node);
    }
  }

  lemma WordsReplaced(t: seq<Node>, i: nat, node: Node)
    requires i < |t|
    ensures Words(t[i := node]) == Words(t)[i := WordOf(node)]
  {
    hide ToWord, Words;
  }

  lemma WordsInserted(t: seq<Node>, i: nat, node: Node)
    requires i <= |t|
    ensures Words(PutAt(t, i, node)) == PutAt(Words(t), i, WordOf(node))
  {
    hide ToWord, Words;
  }

  // A tree of words stands for a tree of integer positions.
  ghost predicate Stands(tree: seq<WordNode>, t: seq<Node>) {
    Ordered(t) && tree == Words(t)
  }

  // The tree is in the sequence window around p, and so are the positions it maps p to.
  ghost predicate OneWindow(t: seq<Node>, p: int) {
    InWindow(t, p) && InWindow(t, p - 1)
    && forall i :: 0 <= i < |t| && t[i].key <= p ==> -TWO31 <= p + t[i].offset - Bound(t, i) < TWO31
  }

  // What the maintainer answers, for positions that are integers in the window of the tree.
  lemma AnswersInWindow(t: seq<Node>, p: int)
    requires Ordered(t) && OneWindow(t, p)
    ensures MappedWord(Words(t), ToWord(p), ToWord(p)) == ToWord(MapAck(t, p))
    ensures MappedWord(Words(t), ToWord(ToWord(p) - 1), ToWord(p)) == ToWord(MapSeq(t, p))
  {
    hide ToWord, MappedWord, Mapped, Seek, Words;
    ToWordAdd(p, -1);
    MappedInWindow(t, p, p);
    MappedInWindow(t, p - 1, p);
  }

  // In one window the answers keep the order of the sequence numbers.
  lemma AnswersKeepOrder(t: seq<Node>, p: int, q: int)
    requires Ordered(t) && OneWindow(t, p) && OneWindow(t, q) && p <= q
    ensures AckSteps(t) && MapAck(t, q) - MapAck(t, p) < TWO31 ==>
      !SeqLt(MappedWord(Words(t), ToWord(q), ToWord(q)), MappedWord(Words(t), ToWord(p), ToWord(p)))
    ensures SeqSteps(t) && MapSeq(t, q) - MapSeq(t, p) < TWO31 ==>
      !SeqLt(MappedWord(Words(t), ToWord(ToWord(q) - 1), ToWord(q)),
             MappedWord(Words(t), ToWord(ToWord(p) - 1), ToWord(p)))
  {
    hide ToWord, MappedWord, Mapped, Seek, Words, Ahead, AckSteps, SeqSteps, OneWindow;
    AnswersInWindow(t, p);
    AnswersInWindow(t, q);
    if AckSteps(t) {
      ManySteps(t, 0, p, q);
      if MapAck(t, q) - MapAck(t, p) < TWO31 {
        AheadOf(MapAck(t, q), MapAck(t, p));
      }
    }
    if SeqSteps(t) {
      ManySteps(t, 1, p, q);
      if MapSeq(t, q) - MapSeq(t, p) < TWO31 {
        AheadOf(MapSeq(t, q), MapSeq(t, p));
      }
    }
  }

  lemma FirstInserted(t: seq<WordNode>, k: Word, offset: int)
    requires |t| == 0
    ensures InsertedWord(t, k, offset) == [WordNode(k, offset)]
  {
    hide SeekWord, CompareKeys;
    assert SeekWord(t, k) == -1;
    var node := WordNode(k, offset);
    assert InsertedWord(t, k, offset) == PutAt(t, 0, node);
    assert PutAt(t, 0, node) == [node];
  }

  // The tree r has taken a node: the only one, or, in one window, the tree of integer
  // positions with that node inserted.
  ghost predicate Takes(tree: seq<WordNode>, position: Word, offset: int, r: seq<WordNode>) {
    r == InsertedWord(tree, position, offset)
    && (|tree| == 0 ==> r == [WordNode(position, offset)])
    && forall t, k :: Stands(tree, t) && InWindow(t, k) && position == ToWord(k) ==>
         Stands(r, Inserted(t, k, offset))
  }

  lemma InsertionTakes(tree: seq<WordNode>, position: Word, offset: int)
    ensures Takes(tree, position, offset, InsertedWord(tree, position, offset))
  {
    hide InsertedWord, ToWord, Inserted, InWindow, Words;
    var r := InsertedWord(tree, position, offset);
    if |tree| == 0 {
      FirstInserted(tree, position, offset);
    }
    forall t, k | Stands(tree, t) && InWindow(t, k) && position == ToWord(k)
      ensures Stands(r, Inserted(t, k, offset))
    {
      InsertedInWindow(t, k, offset);
    }
  }

  // The guard in an empty tree.
  lemma TakesGuard(tree: seq<WordNode>, position: Word, r: seq<WordNode>)
    requires |tree| == 0 && Takes(tree, position, 0, r)
    ensures r == [WordNode(position, 0)]
  {
    hide InsertedWord, InWindow, Inserted, Words, Stands;
  }

  lemma SameKey(a: Word, b: Word)
    requires CompareKeys(a, b) == 0
    ensures a == b
  {
  }

  // ----- The code -----------------------------------------------------------------------

  class ByteStreamMaintainer {
    var initialized: bool
    var treeAck: seq<WordNode>
    var treeSeq: seq<WordNode>

    constructor ()
      ensures !initialized && treeAck == [] && treeSeq == []
    {
      initialized, treeAck, treeSeq := false, [], [];
    }

    // The start of the flow is a guard.
    method Initialize(flowStart: Word)
      modifies this
      ensures initialized
      ensures old(initialized) ==> treeAck == old(treeAck) && treeSeq == old(treeSeq)
      ensures !old(initialized) ==> treeAck == [WordNode(flowStart, 0)] && treeSeq == [WordNode(flowStart, 0)]
    {
      hide *;
      if initialized {
        return;
      }
      treeAck, treeSeq, initialized := [], [], true;
      ghost var none := treeAck;
      InsertInAckTree(flowStart, 0);
      InsertInSeqTree(flowStart, 0);
      TakesGuard(none, flowStart, treeAck);
      TakesGuard(none, flowStart, treeSeq);
    }

    static method MapTree(tree: seq<WordNode>, positionSeek: Word, position: Word) returns (newPosition: Word)
      ensures newPosition == MappedWord(tree, positionSeek, position)
    {
      hide SeekWord, ToWord, SeqLt;
      newPosition := position;
      var node := SeekWord(tree, positionSeek);
      if node == -1 {
        return position;
      }
      newPosition := ToWord(newPosition + tree[node].offset);
      var pred := node - 1;
      var predOffset := 0;
      if pred != -1 {
        predOffset := tree[pred].offset;
      }
      var predBound := ToWord(tree[node].key + predOffset);
      if SeqLt(newPosition, predBound) {
        newPosition := predBound;
      }
    }

    // In one window this is the map of integer positions.
    method MapAckPosition(position: Word) returns (newPosition: Word)
      requires initialized
      ensures forall t, p :: Stands(treeAck, t) && OneWindow(t, p) && position == ToWord(p) ==>
        newPosition == ToWord(MapAck(t, p))
      ensures newPosition == MappedWord(treeAck, position, position)
    {
      hide MappedWord, ToWord, MapAck, OneWindow;
      newPosition := MapTree(treeAck, position, position);
      forall t, p | Stands(treeAck, t) && OneWindow(t, p) && position == ToWord(p)
        ensures newPosition == ToWord(MapAck(t, p))
      {
        AnswersInWindow(t, p);
      }
    }

    method MapSeqPosition(position: Word) returns (newPosition: Word)
      requires initialized
      ensures forall t, p :: Stands(treeSeq, t) && OneWindow(t, p) && position == ToWord(p) ==>
        newPosition == ToWord(MapSeq(t, p))
      ensures newPosition == MappedWord(treeSeq, ToWord(position - 1), position)
    {
      hide MappedWord, ToWord, MapSeq, OneWindow;
      newPosition := MapTree(treeSeq, ToWord(position - 1), position);
      forall t, p | Stands(treeSeq, t) && OneWindow(t, p) && position == ToWord(p)
        ensures newPosition == ToWord(MapSeq(t, p))
      {
        AnswersInWindow(t, p);
      }
    }

    method InsertInAckTree(position: Word, offset: int)
      requires initialized
      modifies this`treeAck
      ensures Takes(old(treeAck), position, offset, treeAck)
    {
      treeAck := InsertInTree(treeAck, position, offset);
    }

    method InsertInSeqTree(position: Word, offset: int)
      requires initialized
      modifies this`treeSeq
      ensures Takes(old(treeSeq), position, offset, treeSeq)
    {
      treeSeq := InsertInTree(treeSeq, position, offset);
    }

    // In one window this is insertion among integer positions.
    static method InsertInTree(tree: seq<WordNode>, position: Word, offset: int) returns (r: seq<WordNode>)
      ensures Takes(tree, position, offset, r)
    {
      hide SeekWord, CompareKeys, Takes;
      var node := SeekWord(tree, position);
      if node == -1 || CompareKeys(tree[node].key, position) != 0 {
        r := PutAt(tree, node + 1, WordNode(position, offset));
      } else {
        r := tree[node := tree[node].(offset := offset)];
        SameKey(tree[node].key, position);
      }
      InsertionTakes(tree, position, offset);
    }
  }
}
