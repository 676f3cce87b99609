/**
 The layout of flow control blocks: `VirtualFlowManager::_build_fcb` of `lib/flowelement.cc`.
 Which elements a manager reaches, and which elements reach which, is given.
 */
module FlowLayout {
  import opened Bitvectors

  // An element that a manager reaches, and how far away it is.
  datatype Reach = Reach(id: nat, distance: nat)

  datatype Tally = Tally(count: nat, distance: nat)

  datatype Element = Element(id: nat, count: nat, distance: nat)

  datatype Outcome = Placed | Collision

  predicate Reaches(list: seq<Reach>, id: nat) {
    exists j :: 0 <= j < |list| && list[j].id == id
  }

  // ----- Counting -----------------------------------------------------------------------

  function Count(seen: seq<Reach>, id: nat): nat
    decreases |seen|, id
  {
    if |seen| == 0 then 0
    else Count(seen[..|seen| - 1], id) + (if seen[|seen| - 1].id == id then 1 else 0)
  }

  // The elements seen, how often, and the greatest distance of each.
  ghost predicate Tallied(common: map<nat, Tally>, seen: seq<Reach>) {
    && (forall id :: id in common <==> Reaches(seen, id))
    && (forall id :: id in common ==> common[id].count == Count(seen, id))
    && Furthest(common, seen)
  }

  // The distances are the greatest ones seen.
  ghost predicate Furthest(common: map<nat, Tally>, seen: seq<Reach>) {
    && (forall r :: r in seen ==> r.id in common && r.distance <= common[r.id].distance)
    && (forall id :: id in common ==> Reach(id, common[id].distance) in seen)
  }

  function Counted(common: map<nat, Tally>, r: Reach): map<nat, Tally> {
    var t := if r.id in common then common[r.id] else Tally(0, r.distance);
    common[r.id := Tally(t.count + 1, if t.distance < r.distance then r.distance else t.distance)]
  }

  lemma CountedTallies(common: map<nat, Tally>, seen: seq<Reach>, r: Reach)
    requires Tallied(common, seen)
    ensures Tallied(Counted(common, r), seen + [r])
  {
    hide Count;
    var now, c := seen + [r], Counted(common, r);
    forall id ensures id in c <==> Reaches(now, id) {
      ReachesPush(seen, r, id);
    }
    forall id | id in c ensures c[id].count == Count(now, id) {
      CountPush(seen, r, id);
      if r.id !in common {
        NotCounted(seen, r.id);
      }
    }
    FurthestPush(common, seen, r);
  }

  lemma ReachesPush(seen: seq<Reach>, r: Reach, id: nat)
    ensures Reaches(seen + [r], id) <==> Reaches(seen, id) || r.id == id
  {
    var now := seen + [r];
    assert now[|seen|] == r;
    if j :| 0 <= j < |seen| && seen[j].id == id {
      assert now[j].id == id;
    }
  }

  lemma FurthestPush(common: map<nat, Tally>, seen: seq<Reach>, r: Reach)
    requires Furthest(common, seen)
    ensures Furthest(Counted(common, r), seen + [r])
  {
    var now, c := seen + [r], Counted(common, r);
    forall x | x in now ensures x.id in c && x.distance <= c[x.id].distance {
      assert x in seen || x == r;
    }
    forall id | id in c ensures Reach(id, c[id].distance) in now {
      assert id in common ==> Reach(id, common[id].distance) in seen;
    }
  }

  lemma CountPush(seen: seq<Reach>, r: Reach, id: nat)
    ensures Count(seen + [r], id) == Count(seen, id) + (if r.id == id then 1 else 0)
  {
    assert (seen + [r])[..|seen|] == seen;
  }

  lemma {:induction false} NotCounted(seen: seq<Reach>, id: nat)
    requires !Reaches(seen, id)
    ensures Count(seen, id) == 0
    decreases |seen|
  {
    if |seen| > 0 {
      var init := seen[..|seen| - 1];
      assert forall j :: 0 <= j < |init| ==> init[j] == seen[j];
      NotCounted(init, id);
    }
  }

  function IdsSeen(seen: seq<Reach>): (ids: seq<nat>)
    ensures |ids| == |seen| && forall i :: 0 <= i < |seen| ==> ids[i] == seen[i].id
  {
    seq(|seen|, i requires 0 <= i < |seen| => seen[i].id)
  }

  // An element counts as often as it is among those seen.
  lemma {:induction false} CountIs(seen: seq<Reach>, id: nat)
    ensures Count(seen, id) == multiset(IdsSeen(seen))[id]
    decreases |seen|
  {
    if |seen| > 0 {
      var init := seen[..|seen| - 1];
      CountIs(init, id);
      assert IdsSeen(seen) == IdsSeen(init) + [seen[|seen| - 1].id];
    } else {
      assert IdsSeen(seen) == [];
    }
  }

  // All the lists, one behind the other.
  function Flat(lists: seq<seq<Reach>>): seq<Reach>
    decreases |lists|
  {
    if |lists| == 0 then [] else Flat(lists[..|lists| - 1]) + lists[|lists| - 1]
  }

  // ----- Sorting ------------------------------------------------------------------------

  // Most shared first, then the nearest first.
  predicate Before(a: Element, b: Element) {
    a.count > b.count || (a.count == b.count && a.distance < b.distance)
  }

  ghost predicate Sorted(s: seq<Element>) {
    forall i, j :: 0 <= i < j < |s| ==> !Before(s[j], s[i])
  }

  // Every element of the tally once.
  ghost predicate Listing(s: seq<Element>, common: map<nat, Tally>) {
    (forall i, j :: 0 <= i < j < |s| ==> s[i].id != s[j].id)
    && (forall i :: 0 <= i < |s| ==>
          s[i].id in common && common[s[i].id] == Tally(s[i].count, s[i].distance))
    && (forall id :: id in common ==> Element(id, common[id].count, common[id].distance) in s)
  }

  function With(s: seq<Element>, i: nat, e: Element): (r: seq<Element>)
    requires i <= |s|
    ensures |r| == |s| + 1
  {
    seq(|s| + 1, k requires 0 <= k <= |s| => if k < i then s[k] else if k == i then e else s[k - 1])
  }

  lemma InsertedSorted(s: seq<Element>, i: nat, e: Element)
    requires Sorted(s) && i <= |s|
    requires forall k :: 0 <= k < i ==> !Before(e, s[k])
    requires i < |s| ==> Before(e, s[i])
    ensures Sorted(With(s, i, e))
  {
    var r := With(s, i, e);
    forall a, b | 0 <= a < b < |r| ensures !Before(r[b], r[a]) {
      if a == i {
        assert r[b] == s[b - 1] && (b - 1 == i || !Before(s[b - 1], s[i]));
      }
    }
  }

  lemma InsertedListing(s: seq<Element>, i: nat, e: Element, common: map<nat, Tally>)
    requires Listing(s, common) && e.id !in common && i <= |s|
    ensures Listing(With(s, i, e), common[e.id := Tally(e.count, e.distance)])
  {
    var r, now := With(s, i, e), common[e.id := Tally(e.count, e.distance)];
    forall a, b | 0 <= a < b < |r| ensures r[a].id != r[b].id {
      InsertedDiffer(s, i, e, common, a, b);
    }
    forall id | id in now ensures Element(id, now[id].count, now[id].distance) in r {
      if id == e.id {
        assert r[i] == e;
      } else {
        StillIn(s, i, e, Element(id, common[id].count, common[id].distance));
      }
    }
  }

  lemma InsertedDiffer(s: seq<Element>, i: nat, e: Element, common: map<nat, Tally>, a: nat, b: nat)
    requires Listing(s, common) && e.id !in common && i <= |s| && a < b <= |s|
    ensures With(s, i, e)[a].id != With(s, i, e)[b].id
  {
  }

  lemma StillIn(s: seq<Element>, i: nat, e: Element, x: Element)
    requires i <= |s| && x in s
    ensures x in With(s, i, e)
  {
    var k :| 0 <= k < |s| && s[k] == x;
    assert With(s, i, e)[if k < i then k else k + 1] == x;
  }

  method FindPlace(s: seq<Element>, e: Element) returns (i: nat)
    ensures i <= |s| && forall k :: 0 <= k < i ==> !Before(e, s[k])
    ensures i < |s| ==> Before(e, s[i])
  {
    i := 0;
    while i < |s| && !Before(e, s[i])
      invariant i <= |s| && forall k :: 0 <= k < i ==> !Before(e, s[k])
    {
      i := i + 1;
    }
  }

  // The ids of a tally, each once.
  ghost predicate Ids(ids: seq<nat>, common: map<nat, Tally>) {
    (forall i, j :: 0 <= i < j < |ids| ==> ids[i] != ids[j])
    && (forall id :: id in ids <==> id in common)
  }

  // Any sorting algorithm will do: the elements are put in one by one.
  method SortElements(ids: seq<nat>, common: map<nat, Tally>) returns (s: seq<Element>)
    requires Ids(ids, common)
    ensures Listing(s, common) && Sorted(s)
  {
    hide Listing, Sorted, With;
    s := [];
    var done: map<nat, Tally> := map[];
    NothingListed();
    var n: nat := 0;
    while n < |ids|
      invariant n <= |ids| && Sorted(s) && Listing(s, done)
      invariant forall id :: id in done <==> id in ids[..n]
      invariant forall id :: id in done ==> done[id] == common[id]
    {
      var id := ids[n];
      assert id in ids && ids[..n + 1] == ids[..n] + [id];
      var e := Element(id, common[id].count, common[id].distance);
      var i := FindPlace(s, e);
      InsertedSorted(s, i, e);
      InsertedListing(s, i, e, done);
      s := With(s, i, e);
      done := done[id := Tally(e.count, e.distance)];
      n := n + 1;
    }
    assert ids[..n] == ids;
    SameListing(s, done, common);
  }

  lemma SameListing(s: seq<Element>, a: map<nat, Tally>, b: map<nat, Tally>)
    requires Listing(s, a) && (forall id :: id in a <==> id in b) && forall id :: id in a ==> a[id] == b[id]
    ensures Listing(s, b)
  {
  }

  lemma NothingListed()
    ensures Listing([], map[]) && Sorted([])
  {
  }

  // ----- Places -------------------------------------------------------------------------

  // The ranges of two elements have no byte in common.
  predicate Apart(a: nat, aSize: nat, b: nat, bSize: nat) {
    a + aSize <= b || b + bSize <= a
  }

  predicate IsByteOf(x: int, place: nat, size: nat) {
    place <= x < place + size
  }

  lemma ApartBytes(a: nat, aSize: nat, b: nat, bSize: nat)
    requires aSize > 0 && bSize > 0
    ensures Apart(a, aSize, b, bSize) <==> forall x :: IsByteOf(x, a, aSize) ==> !IsByteOf(x, b, bSize)
  {
    if !Apart(a, aSize, b, bSize) {
      var x := if a < b then b else a;
      assert IsByteOf(x, a, aSize) && IsByteOf(x, b, bSize);
    }
  }

  class VirtualFlowManager {
    const reachableList: seq<Reach>
    var reserve: int

    constructor (list: seq<Reach>, reserved: int)
      ensures reachableList == list && reserve == reserved
    {
      reachableList, reserve := list, reserved;
    }
  }

  function Lists(entries: seq<VirtualFlowManager>): (lists: seq<seq<Reach>>)
    ensures |lists| == |entries| && forall i :: 0 <= i < |lists| ==> lists[i] == entries[i].reachableList
  {
    seq(|entries|, i requires 0 <= i < |entries| => entries[i].reachableList)
  }

  function Reserves(entries: seq<VirtualFlowManager>): (r: seq<int>)
    reads entries
    ensures |r| == |entries| && forall i :: 0 <= i < |r| ==> r[i] == entries[i].reserve
  {
    seq(|entries|, i requires 0 <= i < |entries| reads entries => entries[i].reserve)
  }

  // Above the reserve of every manager that reaches the element, and no higher than needed.
  ghost predicate IsMinPlace(lists: seq<seq<Reach>>, reserves: seq<int>, id: nat, place: nat)
    requires |lists| == |reserves|
  {
    (forall i :: 0 <= i < |lists| && Reaches(lists[i], id) ==> reserves[i] < place)
    && (place == 0 || exists i :: 0 <= i < |lists| && Reaches(lists[i], id) && reserves[i] + 1 == place)
  }

  // The elements placed so far have sizes and offsets.
  ghost predicate Known(size: map<nat, nat>, offset: map<nat, nat>, placed: seq<nat>) {
    forall k :: 0 <= k < |placed| ==> placed[k] in size && placed[k] in offset
  }

  // Element id at a place collides with an earlier element that it can reach.
  ghost predicate Collides(reach: set<(nat, nat)>, size: map<nat, nat>, offset: map<nat, nat>, placed: seq<nat>,
                           id: nat, place: nat)
    requires id in size && Known(size, offset, placed)
  {
    exists k :: 0 <= k < |placed| && (id, placed[k]) in reach
      && !Apart(place, size[id], offset[placed[k]], size[placed[k]])
  }

  // A bit of the range of an earlier element that the element can reach.
  ghost predicate Taken(reach: set<(nat, nat)>, size: map<nat, nat>, offset: map<nat, nat>, placed: seq<nat>,
                        id: nat, bit: int)
    requires Known(size, offset, placed)
  {
    exists k :: 0 <= k < |placed| && (id, placed[k]) in reach
      && offset[placed[k]] <= bit < offset[placed[k]] + size[placed[k]]
  }

  lemma TakenIsCollision(reach: set<(nat, nat)>, size: map<nat, nat>, offset: map<nat, nat>, placed: seq<nat>,
                         id: nat, place: nat)
    requires id in size && Known(size, offset, placed)
    requires size[id] > 0 && forall k :: 0 <= k < |placed| ==> size[placed[k]] > 0
    ensures Collides(reach, size, offset, placed, id, place)
       <==> exists bit :: place <= bit < place + size[id] && Taken(reach, size, offset, placed, id, bit)
  {
    if Collides(reach, size, offset, placed, id, place) {
      var k :| 0 <= k < |placed| && (id, placed[k]) in reach
        && !Apart(place, size[id], offset[placed[k]], size[placed[k]]);
      var o := offset[placed[k]];
      assert Taken(reach, size, offset, placed, id, if o < place then place else o);
    }
    if bit :| place <= bit < place + size[id] && Taken(reach, size, offset, placed, id, bit) {
      var k :| 0 <= k < |placed| && (id, placed[k]) in reach
        && offset[placed[k]] <= bit < offset[placed[k]] + size[placed[k]];
      assert !Apart(place, size[id], offset[placed[k]], size[placed[k]]);
    }
  }

  // The least place at or above another that collides with nothing.
  ghost predicate IsLeastFree(reach: set<(nat, nat)>, size: map<nat, nat>, offset: map<nat, nat>, placed: seq<nat>,
                              id: nat, min: nat, place: nat)
    requires id in size && Known(size, offset, placed)
  {
    min <= place && !Collides(reach, size, offset, placed, id, place)
    && forall p: nat :: min <= p < place ==> Collides(reach, size, offset, placed, id, p)
  }

  // Giving an offset to another element changes nothing for the ones placed before.
  lemma CollidesFrame(reach: set<(nat, nat)>, size: map<nat, nat>, offset: map<nat, nat>, placed: seq<nat>,
                      id: nat, other: nat, at: nat)
    requires id in size && Known(size, offset, placed) && forall k :: 0 <= k < |placed| ==> placed[k] != other
    ensures forall p: nat ::
      Collides(reach, size, offset[other := at], placed, id, p) <==> Collides(reach, size, offset, placed, id, p)
  {
  }

  // ----- The code -----------------------------------------------------------------------

  method CountElements(entries: seq<VirtualFlowManager>) returns (common: map<nat, Tally>, ids: seq<nat>)
    ensures Tallied(common, Flat(Lists(entries))) && Ids(ids, common)
  {
    hide Tallied, Ids, Flat, Lists;
    ghost var lists := Lists(entries);
    common, ids := map[], [];
    NothingTallied(lists[..0]);
    var i: nat := 0;
    while i < |entries|
      invariant i <= |entries| && Tallied(common, Flat(lists[..i])) && Ids(ids, common)
    {
      var list := entries[i].reachableList;
      ghost var before := Flat(lists[..i]);
      var j: nat := 0;
      assert before + list[..0] == before;
      while j < |list|
        invariant j <= |list| && Tallied(common, before + list[..j]) && Ids(ids, common)
      {
        CountedTallies(common, before + list[..j], list[j]);
        assert before + list[..j] + [list[j]] == before + list[..j + 1];
        CountedIds(ids, common, list[j]);
        if list[j].id !in common {
          ids := ids + [list[j].id];
        }
        common := Counted(common, list[j]);
        j := j + 1;
      }
      assert list[..j] == list;
      FlatStep(lists, i);
      i := i + 1;
    }
    assert lists[..i] == lists;
  }

  lemma NothingTallied(lists: seq<seq<Reach>>)
    requires |lists| == 0
    ensures Tallied(map[], Flat(lists)) && Ids([], map[])
  {
  }

  lemma CountedIds(ids: seq<nat>, common: map<nat, Tally>, r: Reach)
    requires Ids(ids, common)
    ensures Ids(if r.id in common then ids else ids + [r.id], Counted(common, r))
  {
    if r.id !in common {
      assert r.id !in ids;
    }
  }

  lemma FlatStep(lists: seq<seq<Reach>>, i: nat)
    requires i < |lists|
    ensures Flat(lists[..i + 1]) == Flat(lists[..i]) + lists[i]
  {
    assert lists[..i + 1][..i] == lists[..i];
  }

  method FindMinPlace(entries: seq<VirtualFlowManager>, id: nat) returns (minPlace: nat)
    ensures IsMinPlace(Lists(entries), Reserves(entries), id, minPlace)
  {
    hide Lists, Reserves;
    minPlace := 0;
    var i: nat := 0;
    while i < |entries|
      invariant i <= |entries|
      invariant forall k :: 0 <= k < i && Reaches(entries[k].reachableList, id) ==> entries[k].reserve < minPlace
      invariant minPlace == 0 || exists k :: 0 <= k < i && Reaches(entries[k].reachableList, id)
                                             && entries[k].reserve + 1 == minPlace
    {
      var list := entries[i].reachableList;
      ghost var before := minPlace;
      var j: nat := 0;
      while j < |list|
        invariant j <= |list| && minPlace == before && forall k :: 0 <= k < j ==> list[k].id != id
      {
        if list[j].id == id {
          assert Reaches(list, id);
          if entries[i].reserve >= minPlace {
            minPlace := entries[i].reserve + 1;
          }
          break;
        }
        j := j + 1;
      }
      i := i + 1;
    }
  }

  method MarkRange(v: Bitvector, start: nat, length: nat)
    requires v.Valid() && v.data.Length >= 2
    modifies v, v.data
    ensures v.Valid() && v.data.Length >= 2 && (v.data == old(v.data) || fresh(v.data))
    ensures var bits, end := old(v.Bits()), start + length;
            v.Bits() == Bitvectors.WithRange(if |bits| < end then Bitvectors.Resized(bits, end) else bits, start, end, true)
  {
    if v.Size() < start + length {
      var _ := v.Resize(start + length);
    }
    v.SetRange(start, length, true);
  }

  // The bits of the earlier elements that the element can reach, and whether one of them is in
  // the way of a place.
  method MarkTaken(reach: set<(nat, nat)>, size: map<nat, nat>, offset: map<nat, nat>, placed: seq<nat>, id: nat,
                   ordered: bool, place: nat)
    returns (v: Bitvector, collided: bool)
    requires id in size && Known(size, offset, placed)
    ensures collided == (ordered && Collides(reach, size, offset, placed, id, place))
    ensures fresh(v) && fresh(v.data) && v.Valid()
    ensures !collided ==> Marks(v.Bits(), reach, size, offset, placed, id)
  {
    hide Marks, Collides, Known, Apart, Resized, WithRange;
    v := new Bitvector(1);
    NothingMarked(v.Bits(), reach, size, offset, placed[..0], id);
    NothingCollides(reach, size, offset, placed[..0], id, place);
    var k: nat := 0;
    while k < |placed|
      invariant k <= |placed| && v.Valid() && v.data.Length >= 2 && fresh(v) && fresh(v.data)
      invariant Known(size, offset, placed[..k])
      invariant Marks(v.Bits(), reach, size, offset, placed[..k], id)
      invariant ordered ==> !Collides(reach, size, offset, placed[..k], id, place)
    {
      var aid := placed[k];
      KnownAt(size, offset, placed, k);
      var start, length := offset[aid], size[aid];
      ghost var bits := v.Bits();
      assert placed[..k + 1] == placed[..k] + [aid];
      MarkedStep(bits, reach, size, offset, placed[..k], id, aid);
      CollidesStep(reach, size, offset, placed, k, id, place);
      if (id, aid) in reach {
        MarkRange(v, start, length);
        if ordered && !(start + length <= place || start >= place + size[id]) {
          collided := true;
          return;
        }
      }
      k := k + 1;
    }
    assert placed[..k] == placed;
    collided := false;
  }

  lemma KnownAt(size: map<nat, nat>, offset: map<nat, nat>, placed: seq<nat>, k: nat)
    requires Known(size, offset, placed) && k < |placed|
    ensures placed[k] in size && placed[k] in offset
    ensures Known(size, offset, placed[..k]) && Known(size, offset, placed[..k + 1])
  {
  }

  lemma CollidesStep(reach: set<(nat, nat)>, size: map<nat, nat>, offset: map<nat, nat>, placed: seq<nat>, k: nat,
                     id: nat, place: nat)
    requires id in size && Known(size, offset, placed) && k < |placed|
    ensures Known(size, offset, placed[..k]) && Known(size, offset, placed[..k + 1])
    ensures var aid := placed[k];
            var hit := (id, aid) in reach
              && !(offset[aid] + size[aid] <= place || offset[aid] >= place + size[id]);
            (Collides(reach, size, offset, placed[..k + 1], id, place)
             <==> (Collides(reach, size, offset, placed[..k], id, place) || hit))
            && (hit ==> Collides(reach, size, offset, placed, id, place))
  {
    var now := placed[..k + 1];
    assert now[k] == placed[k] && forall j :: 0 <= j < k ==> now[j] == placed[..k][j];
    assert Apart(place, size[id], offset[placed[k]], size[placed[k]])
      <==> (offset[placed[k]] + size[placed[k]] <= place || offset[placed[k]] >= place + size[id]);
  }

  lemma NothingCollides(reach: set<(nat, nat)>, size: map<nat, nat>, offset: map<nat, nat>, placed: seq<nat>,
                        id: nat, place: nat)
    requires id in size && |placed| == 0
    ensures Known(size, offset, placed) && !Collides(reach, size, offset, placed, id, place)
  {
  }

  // The vector holds exactly the bits taken.
  ghost predicate Marks(bits: seq<bool>, reach: set<(nat, nat)>, size: map<nat, nat>, offset: map<nat, nat>,
                        placed: seq<nat>, id: nat)
    requires Known(size, offset, placed)
  {
    forall bit: nat :: Taken(reach, size, offset, placed, id, bit) <==> (bit < |bits| && bits[bit])
  }

  lemma NothingMarked(bits: seq<bool>, reach: set<(nat, nat)>, size: map<nat, nat>, offset: map<nat, nat>,
                      placed: seq<nat>, id: nat)
    requires |placed| == 0 && bits == BitText.Falses(1)
    ensures Known(size, offset, placed) && Marks(bits, reach, size, offset, placed, id)
  {
  }

  lemma MarkedStep(bits: seq<bool>, reach: set<(nat, nat)>, size: map<nat, nat>, offset: map<nat, nat>,
                   placed: seq<nat>, id: nat, aid: nat)
    requires Known(size, offset, placed) && aid in size && aid in offset
    requires Marks(bits, reach, size, offset, placed, id)
    ensures Known(size, offset, placed + [aid])
    ensures var end := offset[aid] + size[aid];
            var grown := if |bits| < end then Bitvectors.Resized(bits, end) else bits;
            Marks(if (id, aid) in reach then Bitvectors.WithRange(grown, offset[aid], end, true) else bits,
                  reach, size, offset, placed + [aid], id)
  {
    var now := placed + [aid];
    forall bit: nat
      ensures Taken(reach, size, offset, now, id, bit)
        <==> (Taken(reach, size, offset, placed, id, bit)
              || ((id, aid) in reach && offset[aid] <= bit < offset[aid] + size[aid]))
    {
      assert now[|placed|] == aid;
      assert forall k :: 0 <= k < |placed| ==> now[k] == placed[k];
    }
  }

  // What the scan of the vector at a place says.
  lemma MarkedIsCollision(bits: seq<bool>, reach: set<(nat, nat)>, size: map<nat, nat>, offset: map<nat, nat>,
                          placed: seq<nat>, id: nat, place: nat)
    requires id in size && Known(size, offset, placed)
    requires size[id] > 0 && forall k :: 0 <= k < |placed| ==> size[placed[k]] > 0
    requires Marks(bits, reach, size, offset, placed, id)
    ensures Collides(reach, size, offset, placed, id, place)
       <==> exists i :: place <= i < place + size[id] && i < |bits| && bits[i]
  {
    hide Collides, Taken;
    TakenIsCollision(reach, size, offset, placed, id, place);
    forall i: nat ensures Taken(reach, size, offset, placed, id, i) <==> (i < |bits| && bits[i]) {
    }
  }

  method PlaceElement(reach: set<(nat, nat)>, size: map<nat, nat>, offset: map<nat, nat>, placed: seq<nat>, id: nat,
                      ordered: bool, minPlace: nat, distance: nat)
    returns (ok: bool, place: nat)
    requires id in size && Known(size, offset, placed)
    requires size[id] > 0 && forall k :: 0 <= k < |placed| ==> size[placed[k]] > 0
    ensures ordered ==>
      place == minPlace + distance && ok == !Collides(reach, size, offset, placed, id, place)
    ensures !ordered ==> ok && IsLeastFree(reach, size, offset, placed, id, minPlace, place)
  {
    hide Collides, Taken;
    place := if ordered then minPlace + distance else minPlace;
    var v, collided := MarkTaken(reach, size, offset, placed, id, ordered, place);
    if collided {
      return false, place;
    }
    ok := true;
    while !ordered
      invariant minPlace <= place && (ordered ==> place == minPlace + distance) && v.Valid()
      invariant Marks(v.Bits(), reach, size, offset, placed, id)
      invariant !ordered ==> forall p: nat :: minPlace <= p < place ==> Collides(reach, size, offset, placed, id, p)
      decreases v.max - place
    {
      var found := v.Range(place, size[id]);
      MarkedIsCollision(v.Bits(), reach, size, offset, placed, id, place);
      if !found {
        break;
      }
      place := place + 1;
    }
  }

  // ----- The whole layout -----------------------------------------------------------------

  function MinPlace(lists: seq<seq<Reach>>, reserves: seq<int>, id: nat): (place: nat)
    requires |lists| == |reserves|
    ensures IsMinPlace(lists, reserves, id, place)
    decreases |lists|, id
  {
    if |lists| == 0 then 0
    else
      var n := |lists| - 1;
      var m := MinPlace(lists[..n], reserves[..n], id);
      if Reaches(lists[n], id) && reserves[n] >= m then reserves[n] + 1 else m
  }

  lemma MinPlaceIs(lists: seq<seq<Reach>>, reserves: seq<int>, id: nat, place: nat)
    requires |lists| == |reserves| && IsMinPlace(lists, reserves, id, place)
    ensures place == MinPlace(lists, reserves, id)
  {
    assert IsMinPlace(lists, reserves, id, MinPlace(lists, reserves, id));
  }

  datatype Problem = Problem(lists: seq<seq<Reach>>, reserves: seq<int>, reach: set<(nat, nat)>,
                             size: map<nat, nat>, common: map<nat, Tally>, ordered: bool)

  // The managers reach elements that have data.
  ghost predicate Sized(p: Problem) {
    |p.lists| == |p.reserves| && forall id :: id in p.common ==> id in p.size && p.size[id] > 0
  }

  ghost predicate OnlyOnce(order: seq<nat>, p: Problem) {
    (forall a, b :: 0 <= a < b < |order| ==> order[a] != order[b])
    && forall b :: 0 <= b < |order| ==> order[b] in p.common
  }

  // Where element b of the order is, given the ones before it.
  ghost predicate WellPlaced(p: Problem, order: seq<nat>, offset: map<nat, nat>, b: nat)
    requires Sized(p) && b < |order| && order[b] in p.common
    requires order[b] in offset && Known(p.size, offset, order[..b])
  {
    Placeable(p, order[..b], offset, order[b], offset[order[b]])
  }

  ghost predicate LaidOut(p: Problem, order: seq<nat>, offset: map<nat, nat>) {
    Sized(p) && OnlyOnce(order, p) && Known(p.size, offset, order)
    && forall b :: 0 <= b < |order| ==> Known(p.size, offset, order[..b]) && WellPlaced(p, order, offset, b)
  }

  // Of two elements, the one placed later has no byte in common with an earlier one that it
  // can reach.
  ghost predicate AllApart(p: Problem, order: seq<nat>, offset: map<nat, nat>)
    requires Known(p.size, offset, order)
  {
    forall a, b :: 0 <= a < b < |order| && (order[b], order[a]) in p.reach ==>
      Apart(offset[order[b]], p.size[order[b]], offset[order[a]], p.size[order[a]])
  }

  // No manager's own reserve is touched by an element that it reaches.
  ghost predicate AboveReserves(p: Problem, order: seq<nat>, offset: map<nat, nat>)
    requires Known(p.size, offset, order) && |p.lists| == |p.reserves|
  {
    forall b, i :: 0 <= b < |order| && 0 <= i < |p.lists| && Reaches(p.lists[i], order[b]) ==>
      offset[order[b]] > p.reserves[i]
  }

  lemma LaidOutApart(p: Problem, order: seq<nat>, offset: map<nat, nat>)
    requires LaidOut(p, order, offset)
    ensures AllApart(p, order, offset)
  {
    hide Apart, Reaches, MinPlace;
    forall a, b | 0 <= a < b < |order| && (order[b], order[a]) in p.reach
      ensures Apart(offset[order[b]], p.size[order[b]], offset[order[a]], p.size[order[a]])
    {
      assert WellPlaced(p, order, offset, b);
      assert order[..b][a] == order[a];
    }
  }

  lemma LaidOutAboveReserves(p: Problem, order: seq<nat>, offset: map<nat, nat>)
    requires LaidOut(p, order, offset)
    ensures AboveReserves(p, order, offset)
  {
    hide Collides, Reaches;
    forall b, i | 0 <= b < |order| && 0 <= i < |p.lists| && Reaches(p.lists[i], order[b])
      ensures offset[order[b]] > p.reserves[i]
    {
      assert WellPlaced(p, order, offset, b);
    }
  }

  // Where the ordered mode puts an element, whatever else is placed.
  function OrderedPlace(p: Problem, id: nat): nat
    requires |p.lists| == |p.reserves| && id in p.common
  {
    MinPlace(p.lists, p.reserves, id) + p.common[id].distance
  }

  // All elements, in an order in which they are placed.
  ghost predicate Lineup(p: Problem, all: seq<nat>) {
    OnlyOnce(all, p) && (forall id :: id in p.common ==> id in all) && InOrder(p, all)
  }

  // No two of their ordered places overlap within reach.
  ghost predicate NoOverlap(p: Problem, all: seq<nat>)
    requires Sized(p) && OnlyOnce(all, p)
  {
    forall a, b :: 0 <= a < b < |all| && (all[b], all[a]) in p.reach ==>
      Apart(OrderedPlace(p, all[b]), p.size[all[b]], OrderedPlace(p, all[a]), p.size[all[a]])
  }

  lemma LaidOutInOrder(p: Problem, order: seq<nat>, offset: map<nat, nat>)
    requires LaidOut(p, order, offset) && p.ordered
    ensures forall b :: 0 <= b < |order| ==> offset[order[b]] == OrderedPlace(p, order[b])
  {
    hide Collides, MinPlace;
    forall b | 0 <= b < |order| ensures offset[order[b]] == OrderedPlace(p, order[b]) {
      assert WellPlaced(p, order, offset, b);
    }
  }

  lemma PlacedNoOverlap(p: Problem, order: seq<nat>, offset: map<nat, nat>, all: seq<nat>)
    requires LaidOut(p, order, offset) && p.ordered && OnlyOnce(all, p) && all == order
    ensures NoOverlap(p, all)
  {
    hide Apart, OrderedPlace, LaidOut;
    LaidOutApart(p, order, offset);
    LaidOutInOrder(p, order, offset);
    SoFar(p, order, offset);
  }

  lemma StuckOverlap(p: Problem, order: seq<nat>, offset: map<nat, nat>, all: seq<nat>)
    requires LaidOut(p, order, offset) && p.ordered && OnlyOnce(all, p)
    requires |order| < |all| && order == all[..|order|]
    requires Collides(p.reach, p.size, offset, order, all[|order|], OrderedPlace(p, all[|order|]))
    ensures !NoOverlap(p, all)
  {
    hide Apart, OrderedPlace;
    LaidOutInOrder(p, order, offset);
    var b := |order|;
    var a :| 0 <= a < b && (all[b], order[a]) in p.reach
      && !Apart(OrderedPlace(p, all[b]), p.size[all[b]], offset[order[a]], p.size[order[a]]);
    assert order[a] == all[a];
  }

  ghost predicate Placeable(p: Problem, order: seq<nat>, offset: map<nat, nat>, id: nat, place: nat)
    requires Sized(p) && id in p.common && Known(p.size, offset, order)
  {
    var min := MinPlace(p.lists, p.reserves, id);
    if p.ordered then
      place == min + p.common[id].distance && !Collides(p.reach, p.size, offset, order, id, place)
    else IsLeastFree(p.reach, p.size, offset, order, id, min, place)
  }

  // Placing another element changes nothing about a place.
  lemma PlaceableFrame(p: Problem, order: seq<nat>, offset: map<nat, nat>, id: nat, place: nat, other: nat, at: nat)
    requires Sized(p) && id in p.common && Known(p.size, offset, order)
    requires Placeable(p, order, offset, id, place) && other !in order
    ensures Known(p.size, offset[other := at], order) && Placeable(p, order, offset[other := at], id, place)
  {
    hide Collides, MinPlace;
    var changed, min := offset[other := at], MinPlace(p.lists, p.reserves, id);
    CollidesFrame(p.reach, p.size, offset, order, id, other, at);
    assert Known(p.size, changed, order);
    if !p.ordered {
      assert IsLeastFree(p.reach, p.size, offset, order, id, min, place);
      forall q: nat | min <= q < place ensures Collides(p.reach, p.size, changed, order, id, q) {
        assert Collides(p.reach, p.size, offset, order, id, q);
      }
      assert !Collides(p.reach, p.size, changed, order, id, place);
    }
  }

  lemma PlacedOneMore(p: Problem, order: seq<nat>, offset: map<nat, nat>, id: nat, place: nat)
    requires LaidOut(p, order, offset) && id in p.common && id !in order && Placeable(p, order, offset, id, place)
    ensures LaidOut(p, order + [id], offset[id := place])
  {
    hide Placeable;
    var now, extended := order + [id], offset[id := place];
    forall b | 0 <= b < |now| ensures Known(p.size, extended, now[..b]) && WellPlaced(p, now, extended, b) {
      if b < |order| {
        assert now[..b] == order[..b] && now[b] == order[b];
        assert WellPlaced(p, order, offset, b);
        PlaceableFrame(p, order[..b], offset, order[b], offset[order[b]], id, place);
      } else {
        assert now[..b] == order;
        PlaceableFrame(p, order, offset, id, place, id, place);
      }
    }
  }

  // The next element has its ordered place taken.
  ghost predicate Stuck(p: Problem, order: seq<nat>, offset: map<nat, nat>)
    requires LaidOut(p, order, offset)
  {
    exists id :: id in p.common && id !in order
      && Collides(p.reach, p.size, offset, order, id, MinPlace(p.lists, p.reserves, id) + p.common[id].distance)
  }

  // The reserve grows to what the elements that the manager reaches need, and no further.
  ghost predicate Covers(list: seq<Reach>, size: map<nat, nat>, offset: map<nat, nat>, before: int, reserve: int) {
    before <= reserve
    && (forall r :: r in list ==> r.id in size && r.id in offset && offset[r.id] + size[r.id] <= reserve)
    && (reserve == before || exists r :: r in list && offset[r.id] + size[r.id] == reserve)
  }

  lemma {:induction false} FlatMembers(lists: seq<seq<Reach>>, r: Reach)
    ensures r in Flat(lists) <==> exists i :: 0 <= i < |lists| && r in lists[i]
    decreases |lists|
  {
    if |lists| > 0 {
      var n := |lists| - 1;
      FlatMembers(lists[..n], r);
      assert forall i :: 0 <= i < n ==> lists[..n][i] == lists[i];
    }
  }

  lemma AllSized(entries: seq<VirtualFlowManager>, p: Problem)
    requires p.lists == Lists(entries) && |p.reserves| == |entries| && Tallied(p.common, Flat(p.lists))
    requires forall i, r :: 0 <= i < |entries| && r in entries[i].reachableList ==> r.id in p.size && p.size[r.id] > 0
    ensures Sized(p)
  {
    hide Flat;
    forall id | id in p.common ensures id in p.size && p.size[id] > 0 {
      FlatMembers(p.lists, Reach(id, p.common[id].distance));
    }
  }

  lemma NothingLaidOut(p: Problem, order: seq<nat>, offset: map<nat, nat>)
    requires Sized(p) && |order| == 0
    ensures LaidOut(p, order, offset)
  {
  }

  lemma NextElement(elements: seq<Element>, common: map<nat, Tally>, order: seq<nat>, n: nat)
    requires Listing(elements, common) && n < |elements| && |order| == n
    requires forall k :: 0 <= k < n ==> order[k] == elements[k].id
    ensures var e := elements[n];
            e.id in common && common[e.id] == Tally(e.count, e.distance) && e.id !in order
  {
  }

  lemma SoFar(p: Problem, order: seq<nat>, offset: map<nat, nat>)
    requires LaidOut(p, order, offset)
    ensures Sized(p) && Known(p.size, offset, order)
    ensures forall k :: 0 <= k < |order| ==> p.size[order[k]] > 0
  {
    forall k | 0 <= k < |order| ensures p.size[order[k]] > 0 {
      assert order[k] in p.common;
    }
  }

  // The most shared elements come first, and the nearest of those shared alike.
  ghost predicate InOrder(p: Problem, order: seq<nat>)
    requires forall b :: 0 <= b < |order| ==> order[b] in p.common
  {
    forall a, b :: 0 <= a < b < |order| ==>
      var s, t := p.common[order[a]], p.common[order[b]];
      s.count > t.count || (s.count == t.count && s.distance <= t.distance)
  }

  lemma PlacedInOrder(elements: seq<Element>, p: Problem, order: seq<nat>)
    requires Listing(elements, p.common) && Sorted(elements) && |order| <= |elements|
    requires forall k :: 0 <= k < |order| ==> order[k] == elements[k].id
    ensures (forall b :: 0 <= b < |order| ==> order[b] in p.common) && InOrder(p, order)
  {
    forall a, b | 0 <= a < b < |order| ensures !Before(elements[b], elements[a]) {
    }
  }

  function IdsOf(elements: seq<Element>): (ids: seq<nat>)
    ensures |ids| == |elements| && forall k :: 0 <= k < |ids| ==> ids[k] == elements[k].id
  {
    seq(|elements|, k requires 0 <= k < |elements| => elements[k].id)
  }

  lemma LinedUp(elements: seq<Element>, p: Problem, all: seq<nat>)
    requires Listing(elements, p.common) && Sorted(elements) && all == IdsOf(elements)
    ensures Lineup(p, all) && OnlyOnce(all, p)
  {
    PlacedInOrder(elements, p, all);
    AllPlaced(elements, p, all);
  }

  lemma AllPlaced(elements: seq<Element>, p: Problem, order: seq<nat>)
    requires Listing(elements, p.common) && |order| == |elements|
    requires forall k :: 0 <= k < |order| ==> order[k] == elements[k].id
    ensures forall id :: id in p.common ==> id in order
  {
    forall id | id in p.common ensures id in order {
      var e := Element(id, p.common[id].count, p.common[id].distance);
      assert e in elements;
      var k :| 0 <= k < |elements| && elements[k] == e;
      assert order[k] == id;
    }
  }

  lemma AllHaveOffsets(entries: seq<VirtualFlowManager>, p: Problem, order: seq<nat>, offset: map<nat, nat>)
    requires LaidOut(p, order, offset) && p.lists == Lists(entries) && Tallied(p.common, Flat(p.lists))
    requires forall id :: id in p.common ==> id in order
    ensures forall i, r :: 0 <= i < |entries| && r in entries[i].reachableList ==> r.id in p.size && r.id in offset
  {
    hide Flat;
    forall i, r | 0 <= i < |entries| && r in entries[i].reachableList ensures r.id in p.size && r.id in offset {
      FlatMembers(p.lists, r);
      assert r in p.lists[i];
      assert r.id in order;
    }
  }

  method SetReserves(entries: seq<VirtualFlowManager>, size: map<nat, nat>, offset: map<nat, nat>)
    requires forall i, j :: 0 <= i < j < |entries| ==> entries[i] != entries[j]
    requires forall i, r :: 0 <= i < |entries| && r in entries[i].reachableList ==> r.id in size && r.id in offset
    modifies entries
    ensures forall i :: 0 <= i < |entries| ==>
      Covers(entries[i].reachableList, size, offset, old(entries[i].reserve), entries[i].reserve)
  {
    var i: nat := 0;
    while i < |entries|
      invariant i <= |entries|
      invariant forall k :: 0 <= k < i ==>
        Covers(entries[k].reachableList, size, offset, old(entries[k].reserve), entries[k].reserve)
      invariant forall k :: i <= k < |entries| ==> entries[k].reserve == old(entries[k].reserve)
    {
      GrowReserve(entries[i], size, offset);
      i := i + 1;
    }
  }

  method GrowReserve(fc: VirtualFlowManager, size: map<nat, nat>, offset: map<nat, nat>)
    requires forall r :: r in fc.reachableList ==> r.id in size && r.id in offset
    modifies fc
    ensures Covers(fc.reachableList, size, offset, old(fc.reserve), fc.reserve)
  {
    var list := fc.reachableList;
    var j: nat := 0;
    while j < |list|
      invariant j <= |list| && Covers(list[..j], size, offset, old(fc.reserve), fc.reserve)
    {
      assert list[..j + 1] == list[..j] + [list[j]];
      assert list[j] in list;
      var tot := offset[list[j].id] + size[list[j].id];
      if tot > fc.reserve {
        fc.reserve := tot;
      }
      j := j + 1;
    }
    assert list[..j] == list;
  }

  method BuildFcb(entries: seq<VirtualFlowManager>, reach: set<(nat, nat)>, size: map<nat, nat>, ordered: bool)
    returns (outcome: Outcome, order: seq<nat>, offset: map<nat, nat>, ghost p: Problem, ghost all: seq<nat>)
    requires forall i, j :: 0 <= i < j < |entries| ==> entries[i] != entries[j]
    requires forall i, r :: 0 <= i < |entries| && r in entries[i].reachableList ==> r.id in size && size[r.id] > 0
    modifies entries
    ensures p.lists == Lists(entries) && p.reserves == old(Reserves(entries)) && p.reach == reach && p.size == size
    ensures p.ordered == ordered && Tallied(p.common, Flat(Lists(entries)))
    ensures LaidOut(p, order, offset) && InOrder(p, order)
    ensures AllApart(p, order, offset) && AboveReserves(p, order, offset)
    ensures outcome.Placed? ==> forall id :: id in p.common ==> id in order
    ensures outcome.Collision? ==> ordered && Stuck(p, order, offset)
    ensures Lineup(p, all) && order <= all
    ensures ordered ==> (outcome.Placed? <==> NoOverlap(p, all))
    ensures outcome.Placed? ==> forall i :: 0 <= i < |entries| ==>
      Covers(entries[i].reachableList, size, offset, old(entries[i].reserve), entries[i].reserve)
  {
    hide Tallied, Ids, Flat, Lists, Reserves, LaidOut, Listing, Sorted, IsMinPlace, AllApart, AboveReserves,
      InOrder, Lineup, NoOverlap;
    var common, ids := CountElements(entries);
    var elements := SortElements(ids, common);
    p := Problem(Lists(entries), Reserves(entries), reach, size, common, ordered);
    order, offset := [], map[];
    AllSized(entries, p);
    NothingLaidOut(p, order, offset);
    all := IdsOf(elements);
    LinedUp(elements, p, all);
    var n: nat := 0;
    while n < |elements|
      invariant n <= |elements| && |order| == n && LaidOut(p, order, offset)
      invariant forall k :: 0 <= k < n ==> order[k] == elements[k].id
      invariant p.reserves == Reserves(entries)
      invariant forall i :: 0 <= i < |entries| ==> entries[i].reserve == old(entries[i].reserve)
    {
      var e := elements[n];
      NextElement(elements, common, order, n);
      SoFar(p, order, offset);
      var minPlace := FindMinPlace(entries, e.id);
      MinPlaceIs(p.lists, p.reserves, e.id, minPlace);
      var ok, place := PlaceElement(reach, size, offset, order, e.id, ordered, minPlace, e.distance);
      if !ok {
        PlacedInOrder(elements, p, order);
        LaidOutApart(p, order, offset);
        LaidOutAboveReserves(p, order, offset);
        assert order == all[..n] && all[n] == e.id;
        StuckOverlap(p, order, offset, all);
        outcome := Collision;
        return;
      }
      PlacedOneMore(p, order, offset, e.id, place);
      order := order + [e.id];
      offset := offset[e.id := place];
      n := n + 1;
    }
    PlacedInOrder(elements, p, order);
    LaidOutApart(p, order, offset);
    LaidOutAboveReserves(p, order, offset);
    AllPlaced(elements, p, order);
    assert order == all;
    if ordered {
      PlacedNoOverlap(p, order, offset, all);
    }
    AllHaveOffsets(entries, p, order, offset);
    outcome := Placed;
    SetReserves(entries, size, offset);
  }
}
