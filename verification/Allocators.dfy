/** Hole lists as allocator callbacks receive them, and three callbacks. */
module Allocators {
  import opened Paths
  import opened Blocks

  type uint16 = x: int | 0 <= x < 0x1_0000

  const INT_MAX: int := 0x7fff_ffff

  /** A count, then offset and length of each hole. */
  predicate HasShape(list: seq<uint16>) {
    |list| >= 1 && |list| == 1 + 2 * (list[0] as int)
  }

  function HolesIn(list: seq<uint16>): (hs: seq<Hole>)
    requires HasShape(list)
    ensures |hs| == list[0]
  {
    seq(list[0], i requires 0 <= i < list[0] => Hole(list[1 + 2 * i], list[2 + 2 * i]))
  }

  /** The lists that `getList` can produce for a pool of at most 65535 words. */
  predicate IsHoleList(list: seq<uint16>) {
    HasShape(list) && Separated(HolesIn(list), 0xffff)
  }

  /** The contract of a callback's answer: negative, or a range inside one listed hole. */
  predicate Answers(r: int, size: nat, hs: seq<Hole>) {
    r < 0 || exists i | 0 <= i < |hs| :: hs[i].start <= r && r + size <= hs[i].End()
  }

  /** A callback with its captured state; partial, as a callback need not return. */
  type Callback<!S> = (nat, seq<uint16>, S) --> (int, S)

  /** On every request, state and list of at most `most` holes the callback returns and meets the contract. */
  ghost predicate Respectful<S(!new)>(f: Callback<S>, most: nat) {
    forall size: nat, list: seq<uint16>, st: S | size > 0 && IsHoleList(list) && list[0] <= most ::
      f.requires(size, list, st) && Answers(f(size, list, st).0, size, HolesIn(list))
  }

  // ---------- best fit ----------

  /** The hole that `bestFit` holds after looking at the first `k`. */
  function Best(hs: seq<Hole>, size: int, k: nat): (r: Option<nat>)
    requires k <= |hs|
    ensures r.Some? ==> r.value < k
  {
    if k == 0 then None
    else
      var b := Best(hs, size, k - 1);
      if hs[k - 1].len >= size && (b == None || hs[k - 1].len < hs[b.value].len) then Some(k - 1) else b
  }

  /** The lowest-addressed smallest hole that is large enough; none only if there is none. */
  lemma {:induction false} BestIsBest(hs: seq<Hole>, size: int, k: nat)
    requires k <= |hs|
    ensures Best(hs, size, k) == None <==> forall j | 0 <= j < k :: hs[j].len < size
    ensures Best(hs, size, k).Some? ==>
              var b := Best(hs, size, k).value;
              hs[b].len >= size
              && forall j | 0 <= j < k && hs[j].len >= size ::
                   hs[b].len < hs[j].len || (hs[b].len == hs[j].len && b <= j)
    decreases k
  {
    if k > 0 {
      BestIsBest(hs, size, k - 1);
    }
  }

  function OffsetOf(hs: seq<Hole>, i: Option<nat>): int
    requires i.Some? ==> i.value < |hs|
  {
    if i.Some? then hs[i.value].start else -1
  }

  method BestFit(sizeInWords: int, list: array<uint16>) returns (r: int)
    requires HasShape(list[..])
    ensures r == OffsetOf(HolesIn(list[..]), Best(HolesIn(list[..]), sizeInWords, |HolesIn(list[..])|))
    ensures var hs := HolesIn(list[..]);
            if r < 0 then r == -1 && forall j | 0 <= j < |hs| :: hs[j].len < sizeInWords
            else exists i | 0 <= i < |hs| :: r == hs[i].start && hs[i].len >= sizeInWords
                   && forall j | 0 <= j < |hs| && hs[j].len >= sizeInWords ::
                        hs[i].len < hs[j].len || (hs[i].len == hs[j].len && i <= j)
  {
    ghost var hs := HolesIn(list[..]);
    var p := 0;
    var minLen: int, minOffset: int := INT_MAX, -1;
    var count: int := list[0];
    while count != 0
      invariant 0 <= count <= |hs| && p == 2 * (|hs| - count)
      invariant minOffset == OffsetOf(hs, Best(hs, sizeInWords, |hs| - count))
      invariant minLen == match Best(hs, sizeInWords, |hs| - count) case None => INT_MAX case Some(b) => hs[b].len
      decreases count
    {
      ghost var k := |hs| - count;
      assert hs[k] == Hole(list[p + 1], list[p + 2]);
      p := p + 1;
      var offset := list[p];
      p := p + 1;
      var len := list[p];
      if len >= sizeInWords && len < minLen {
        minLen := len;
        minOffset := offset;
      }
      count := count - 1;
    }
    r := minOffset;
    BestIsBest(hs, sizeInWords, |hs|);
  }

  /** `bestFit` as a callback. */
  function BestFitCallback<S>(): Callback<S> {
    (size, list, st) requires HasShape(list) =>
      (OffsetOf(HolesIn(list), Best(HolesIn(list), size, |HolesIn(list)|)), st)
  }

  lemma BestFitRespectful<S(!new)>(most: nat)
    ensures Respectful(BestFitCallback<S>(), most)
  {
    forall size: nat, list: seq<uint16>, st: S | size > 0 && IsHoleList(list)
      ensures Answers(BestFitCallback<S>()(size, list, st).0, size, HolesIn(list))
    {
      BestIsBest(HolesIn(list), size, |HolesIn(list)|);
    }
  }

  // ---------- worst fit ----------

  function Worst(hs: seq<Hole>, size: int, k: nat): (r: Option<nat>)
    requires k <= |hs|
    ensures r.Some? ==> r.value < k
  {
    if k == 0 then None
    else
      var b := Worst(hs, size, k - 1);
      if hs[k - 1].len > (if b == None then size - 1 else hs[b.value].len) then Some(k - 1) else b
  }

  /** The lowest-addressed largest hole, if it is large enough. */
  lemma {:induction false} WorstIsWorst(hs: seq<Hole>, size: int, k: nat)
    requires k <= |hs|
    ensures Worst(hs, size, k) == None <==> forall j | 0 <= j < k :: hs[j].len < size
    ensures Worst(hs, size, k).Some? ==>
              var b := Worst(hs, size, k).value;
              hs[b].len >= size
              && forall j | 0 <= j < k :: hs[j].len < hs[b].len || (hs[j].len == hs[b].len && b <= j)
    decreases k
  {
    if k > 0 {
      WorstIsWorst(hs, size, k - 1);
    }
  }

  method WorstFit(sizeInWords: int, list: array<uint16>) returns (r: int)
    requires HasShape(list[..])
    ensures r == OffsetOf(HolesIn(list[..]), Worst(HolesIn(list[..]), sizeInWords, |HolesIn(list[..])|))
    ensures var hs := HolesIn(list[..]);
            if r < 0 then r == -1 && forall j | 0 <= j < |hs| :: hs[j].len < sizeInWords
            else exists i | 0 <= i < |hs| :: r == hs[i].start && hs[i].len >= sizeInWords
                   && forall j | 0 <= j < |hs| :: hs[j].len < hs[i].len || (hs[j].len == hs[i].len && i <= j)
  {
    ghost var hs := HolesIn(list[..]);
    var p := 0;
    var maxLen: int, maxOffset: int := sizeInWords - 1, -1;
    var count: int := list[0];
    while count != 0
      invariant 0 <= count <= |hs| && p == 2 * (|hs| - count)
      invariant maxOffset == OffsetOf(hs, Worst(hs, sizeInWords, |hs| - count))
      invariant maxLen ==
                match Worst(hs, sizeInWords, |hs| - count) case None => sizeInWords - 1 case Some(b) => hs[b].len
      decreases count
    {
      ghost var k := |hs| - count;
      assert hs[k] == Hole(list[p + 1], list[p + 2]);
      p := p + 1;
      var offset := list[p];
      p := p + 1;
      var len := list[p];
      if len > maxLen {
        maxLen := len;
        maxOffset := offset;
      }
      count := count - 1;
    }
    r := maxOffset;
    WorstIsWorst(hs, sizeInWords, |hs|);
  }

  /** `worstFit` as a callback. */
  function WorstFitCallback<S>(): Callback<S> {
    (size, list, st) requires HasShape(list) =>
      (OffsetOf(HolesIn(list), Worst(HolesIn(list), size, |HolesIn(list)|)), st)
  }

  lemma WorstFitRespectful<S(!new)>(most: nat)
    ensures Respectful(WorstFitCallback<S>(), most)
  {
    forall size: nat, list: seq<uint16>, st: S | size > 0 && IsHoleList(list)
      ensures Answers(WorstFitCallback<S>()(size, list, st).0, size, HolesIn(list))
    {
      WorstIsWorst(HolesIn(list), size, |HolesIn(list)|);
    }
  }

  // ---------- the allocator that rotates through the three largest holes ----------

  /** Indices of the largest, second and third largest adequate hole seen so far. */
  datatype Slots = Slots(first: Option<nat>, second: Option<nat>, third: Option<nat>) {
    predicate Below(k: nat) {
      (first.Some? ==> first.value < k) && (second.Some? ==> second.value < k) && (third.Some? ==> third.value < k)
    }
  }

  function LengthOf(hs: seq<Hole>, i: Option<nat>): int
    requires i.Some? ==> i.value < |hs|
  {
    if i.Some? then hs[i.value].len else -1
  }

  /** The three slots after a pass over the first `k` holes. */
  function TopThree(hs: seq<Hole>, size: int, k: nat): (t: Slots)
    requires k <= |hs|
    ensures t.Below(k)
  {
    if k == 0 then Slots(None, None, None)
    else
      var t := TopThree(hs, size, k - 1);
      var len := hs[k - 1].len;
      if len < size then t
      else if len > LengthOf(hs, t.first) then Slots(Some(k - 1), t.first, t.second)
      else if len > LengthOf(hs, t.second) then Slots(t.first, Some(k - 1), t.second)
      else if len > LengthOf(hs, t.third) then Slots(t.first, t.second, Some(k - 1))
      else t
  }

  /** Hole `i` ranks before hole `j`: it is longer, or as long and at a lower address. */
  predicate Ranks(hs: seq<Hole>, i: nat, j: nat)
    requires i < |hs| && j < |hs|
  {
    hs[i].len > hs[j].len || (hs[i].len == hs[j].len && i < j)
  }

  /** Slot `a` is filled when `b` is, and its hole ranks first. */
  predicate InOrder(hs: seq<Hole>, a: Option<nat>, b: Option<nat>) {
    b == None || (a.Some? && a.value < |hs| && b.value < |hs| && Ranks(hs, a.value, b.value))
  }

  /**
   * The slots hold adequate holes in order of rank, and every other adequate hole below `k`
   * ranks after the third, which is then filled.
   */
  predicate IsTop(hs: seq<Hole>, size: int, k: nat, t: Slots)
    requires k <= |hs| && t.Below(k)
  {
    InOrder(hs, t.first, t.second) && InOrder(hs, t.second, t.third)
    && (t.first.Some? ==> hs[t.first.value].len >= size)
    && (t.second.Some? ==> hs[t.second.value].len >= size)
    && (t.third.Some? ==> hs[t.third.value].len >= size)
    && forall j | 0 <= j < k && hs[j].len >= size ::
         Some(j) == t.first || Some(j) == t.second || Some(j) == t.third
         || (t.third.Some? && Ranks(hs, t.third.value, j))
  }

  /** One pass leaves the three adequate holes of highest rank, in order, each slot with its own hole. */
  lemma {:induction false} TopThreeRanks(hs: seq<Hole>, size: int, k: nat)
    requires k <= |hs|
    ensures IsTop(hs, size, k, TopThree(hs, size, k))
    decreases k
  {
    if k > 0 {
      TopThreeRanks(hs, size, k - 1);
    }
  }

  /** The values of the static index. */
  type SlotIndex = i: nat | i <= 2

  function SlotAt(t: Slots, index: SlotIndex): Option<nat> {
    if index == 2 then t.first else if index == 1 then t.second else t.third
  }

  /** The adequate holes that rank before hole `i`. */
  function Ahead(hs: seq<Hole>, size: int, i: nat): set<nat>
    requires i < |hs|
  {
    set j: nat | j < |hs| && hs[j].len >= size && Ranks(hs, j, i)
  }

  function AdequateHoles(hs: seq<Hole>, size: int): set<nat> {
    set j: nat | j < |hs| && hs[j].len >= size
  }

  /**
   * `r` is the start of the adequate hole that exactly `place` adequate holes rank before,
   * or -1 when there are not that many.
   */
  predicate IsAtPlace(hs: seq<Hole>, size: int, place: nat, r: int) {
    if r < 0 then r == -1 && |AdequateHoles(hs, size)| <= place
    else exists i: nat | i < |hs| :: r == hs[i].start && hs[i].len >= size && |Ahead(hs, size, i)| == place
  }

  /** Index 2 holds the largest adequate hole, index 1 the second and index 0 the third. */
  lemma SlotPlace(hs: seq<Hole>, size: int, index: SlotIndex)
    ensures IsAtPlace(hs, size, 2 - index, OffsetOf(hs, SlotAt(TopThree(hs, size, |hs|), index)))
  {
    hide TopThree;
    var t := TopThree(hs, size, |hs|);
    TopThreeRanks(hs, size, |hs|);
    var a, b, c := t.first, t.second, t.third;
    var s := SlotAt(t, index);
    if s == None {
      var some: set<nat> := if index == 2 then {} else if index == 1 || b == None then
        (if a == None then {} else {a.value}) else {a.value, b.value};
      assert AdequateHoles(hs, size) == some;
    } else {
      var some: set<nat> := if index == 2 then {} else if index == 1 then {a.value} else {a.value, b.value};
      assert Ahead(hs, size, s.value) == some;
    }
  }

  /** Answer and next index of a call. */
  function Rotate(size: int, list: seq<uint16>, index: SlotIndex): (int, SlotIndex)
    requires HasShape(list)
  {
    (OffsetOf(HolesIn(list), SlotAt(TopThree(HolesIn(list), size, |HolesIn(list)|), index)),
     if index == 0 then 2 else index - 1)
  }

  lemma NoSlots(hs: seq<Hole>, size: int)
    ensures TopThree(hs, size, 0) == Slots(None, None, None) && OffsetOf(hs, None) == -1 && LengthOf(hs, None) == -1
  {
  }

  /** What one more hole does to the slots. */
  lemma SlotsStep(hs: seq<Hole>, size: int, k: nat)
    requires k < |hs|
    ensures OffsetOf(hs, Some(k)) == hs[k].start && LengthOf(hs, Some(k)) == hs[k].len
    ensures var t, len := TopThree(hs, size, k), hs[k].len;
            TopThree(hs, size, k + 1) ==
            if len < size then t
            else if len > LengthOf(hs, t.first) then Slots(Some(k), t.first, t.second)
            else if len > LengthOf(hs, t.second) then Slots(t.first, Some(k), t.second)
            else if len > LengthOf(hs, t.third) then Slots(t.first, t.second, Some(k))
            else t
  {
  }

  lemma SlotIs(t: Slots, index: SlotIndex)
    ensures SlotAt(t, index) == if index == 2 then t.first else if index == 1 then t.second else t.third
  {
  }

  /** The function with its static index. */
  class HopesAndDreams {
    var wordOffsetIndex: SlotIndex

    constructor ()
      ensures wordOffsetIndex == 2
    {
      wordOffsetIndex := 2;
    }

    method Allocate(sizeInWords: int, list: array<uint16>) returns (r: int)
      requires HasShape(list[..]) && list[0] <= 0x7fff
      modifies this
      ensures (r, wordOffsetIndex) == Rotate(sizeInWords, list[..], old(wordOffsetIndex))
      ensures IsAtPlace(HolesIn(list[..]), sizeInWords, 2 - old(wordOffsetIndex), r)
      ensures wordOffsetIndex == if old(wordOffsetIndex) == 0 then 2 else old(wordOffsetIndex) - 1
    {
      hide IsAtPlace, SlotAt, TopThree, LengthOf, OffsetOf;
      NoSlots(HolesIn(list[..]), sizeInWords);
      ghost var hs := HolesIn(list[..]);
      ghost var t := TopThree(hs, sizeInWords, 0);
      var offset0: int, offset1: int, offset2: int := -1, -1, -1;
      var length0: int, length1: int, length2: int := -1, -1, -1;
      var holeListLength := list[0];
      var i: uint16 := 1;
      while i < 2 * (holeListLength as int)
        invariant wordOffsetIndex == old(wordOffsetIndex)
        invariant i % 2 == 1 && i / 2 <= |hs| && t == TopThree(hs, sizeInWords, i / 2)
        invariant offset2 == OffsetOf(hs, t.first) && length2 == LengthOf(hs, t.first)
        invariant offset1 == OffsetOf(hs, t.second) && length1 == LengthOf(hs, t.second)
        invariant offset0 == OffsetOf(hs, t.third) && length0 == LengthOf(hs, t.third)
        decreases 2 * |hs| - i
      {
        ghost var k := i / 2;
        assert hs[k] == Hole(list[1 + 2 * k], list[2 + 2 * k]);
        SlotsStep(hs, sizeInWords, k);
        var offset, length := list[i], list[i as int + 1];
        if length >= sizeInWords {
          if length > length2 {
            offset0, offset1, offset2 := offset1, offset2, offset;
            length0, length1, length2 := length1, length2, length;
          } else if length > length1 {
            offset0, offset1 := offset1, offset;
            length0, length1 := length1, length;
          } else if length > length0 {
            offset0, length0 := offset, length;
          }
        }
        t := TopThree(hs, sizeInWords, k + 1);
        i := i + 2;
      }
      assert i / 2 == |hs|;
      SlotPlace(hs, sizeInWords, wordOffsetIndex);
      SlotIs(t, wordOffsetIndex);
      r := if wordOffsetIndex == 2 then offset2 else if wordOffsetIndex == 1 then offset1 else offset0;
      wordOffsetIndex := if wordOffsetIndex == 0 then 2 else wordOffsetIndex - 1;
    }
  }

  /** The rotating allocator as a callback whose state is its index; with more holes it does not return. */
  function RotatingCallback(): Callback<SlotIndex> {
    (size, list, index: SlotIndex) requires HasShape(list) && list[0] <= 0x7fff => Rotate(size, list, index)
  }

  lemma RotatingRespectful()
    ensures Respectful(RotatingCallback(), 0x7fff)
  {
    forall size: nat, list: seq<uint16>, index: SlotIndex | size > 0 && IsHoleList(list) && list[0] <= 0x7fff
      ensures Answers(RotatingCallback()(size, list, index).0, size, HolesIn(list))
    {
      TopThreeRanks(HolesIn(list), size, |HolesIn(list)|);
    }
  }

  /** The 16-bit loop index of the original after some rounds. */
  function LoopIndex(rounds: nat): uint16 {
    if rounds == 0 then 1 else (LoopIndex(rounds - 1) + 2) % 0x1_0000
  }

  /** Its loop over `count` holes comes to an end. */
  ghost predicate LoopEnds(count: nat) {
    exists rounds: nat :: LoopIndex(rounds) >= 2 * count
  }

  /** The loop ends if and only if there are at most 32767 holes. */
  lemma LoopEndsIff(count: nat)
    ensures LoopEnds(count) <==> count <= 0x7fff
  {
    if count <= 0x7fff {
      LoopIndexIs(count);
    }
  }

  lemma {:induction false} LoopIndexIs(rounds: nat)
    requires rounds <= 0x7fff
    ensures LoopIndex(rounds) == 1 + 2 * rounds
  {
    if rounds > 0 {
      LoopIndexIs(rounds - 1);
    }
  }

  /** Requests and hole lists of successive calls, and the answers to them. */
  datatype Request = Request(size: int, list: seq<uint16>)

  function RotateAll(requests: seq<Request>, index: SlotIndex): (answers: seq<int>)
    requires forall i | 0 <= i < |requests| :: HasShape(requests[i].list)
    ensures |answers| == |requests|
  {
    if requests == [] then []
    else
      var (answer, next) := Rotate(requests[0].size, requests[0].list, index);
      [answer] + RotateAll(requests[1..], next)
  }

  /**
   * The `i`-th of successive calls answers from its own hole list with the hole that is `i`
   * places further round the cycle largest, second, third; the static index starts at 2.
   */
  lemma {:induction false} RotationOrder(requests: seq<Request>, index: SlotIndex, i: nat)
    requires forall j | 0 <= j < |requests| :: HasShape(requests[j].list)
    requires i < |requests|
    ensures IsAtPlace(HolesIn(requests[i].list), requests[i].size, (2 - index + i) % 3, RotateAll(requests, index)[i])
    decreases |requests|
  {
    hide TopThree, OffsetOf, HolesIn, SlotAt, HasShape, IsAtPlace;
    NextPlace(index, i);
    if i == 0 {
      SlotPlace(HolesIn(requests[0].list), requests[0].size, index);
    } else {
      RotationOrder(requests[1..], Rotate(requests[0].size, requests[0].list, index).1, i - 1);
    }
  }

  lemma NextPlace(index: SlotIndex, i: nat)
    ensures i == 0 ==> (2 - index + i) % 3 == 2 - index
    ensures var next := if index == 0 then 2 else index - 1;
            i > 0 ==> (2 - next + (i - 1)) % 3 == (2 - index + i) % 3
  {
  }
}
