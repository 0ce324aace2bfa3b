/** Live blocks of a pool of words, and the holes between them. */
module Blocks {

  /** Start of each live block, mapped to the word after its last. */
  type Live = map<nat, nat>

  /** Blocks are non-empty, lie inside the pool and do not overlap. */
  predicate Disjoint(live: Live, n: nat) {
    (forall s | s in live :: s < live[s] <= n)
    && (forall s, t | s in live && t in live && s < t :: live[s] <= t)
  }

  predicate Used(live: Live, w: nat) {
    exists s | s in live :: s <= w < live[s]
  }

  predicate EndsAt(live: Live, k: nat) {
    exists s | s in live :: live[s] == k
  }

  /** No word of `[i, j)` is used. */
  predicate Free(live: Live, i: nat, j: nat) {
    forall w | i <= w < j :: !Used(live, w)
  }

  // ---------- the two bits of a word ----------

  /** A block starts at `k`, or `k` is the end of the pool. */
  predicate High(live: Live, n: nat, k: nat) {
    k == n || k in live
  }

  /** A block ends at `k`, or `k` is the start of the pool. */
  predicate Low(live: Live, k: nat) {
    k == 0 || EndsAt(live, k)
  }

  /** Word `k` is free, and the word before it, if any, is used. */
  predicate HoleStart(live: Live, n: nat, k: nat) {
    k < n && !Used(live, k) && (k == 0 || Used(live, k - 1))
  }

  /** Word `k - 1` is free, and word `k`, if any, is used. */
  predicate HoleEnd(live: Live, n: nat, k: nat) {
    0 < k <= n && !Used(live, k - 1) && (k == n || Used(live, k))
  }

  /** The code table: low alone starts a hole, high alone ends one, and no bit changes nothing. */
  lemma CodeMeaning(live: Live, n: nat, k: nat)
    requires Disjoint(live, n) && k <= n
    ensures Low(live, k) && !High(live, n, k) <==> HoleStart(live, n, k)
    ensures High(live, n, k) && !Low(live, k) <==> HoleEnd(live, n, k)
    ensures !Low(live, k) && !High(live, n, k) ==> 0 < k < n && (Used(live, k - 1) <==> Used(live, k))
    ensures Low(live, k) && High(live, n, k) ==> (k == 0 || Used(live, k - 1)) && (k == n || Used(live, k))
  {
    if EndsAt(live, k) {
      var s :| s in live && live[s] == k;
      assert Used(live, k - 1);
    }
    if k in live {
      assert Used(live, k);
    }
    if k > 0 && Used(live, k - 1) {
      var s :| s in live && s <= k - 1 < live[s];
      assert live[s] == k || Used(live, k);
    }
    if k < n && Used(live, k) {
      var s :| s in live && s <= k < live[s];
      assert s == k || (k > 0 && Used(live, k - 1));
    }
  }

  /** Taking a free range adds a block. */
  lemma TakeDisjoint(live: Live, n: nat, i: nat, j: nat)
    requires Disjoint(live, n) && i < j <= n && Free(live, i, j)
    ensures i !in live && Disjoint(live[i := j], n) && !EndsAt(live, j)
    ensures forall w: nat :: Used(live[i := j], w) <==> Used(live, w) || i <= w < j
  {
    assert !Used(live, i);
    assert !Used(live, j - 1);
    forall s | s in live
      ensures s != i && live[s] != j && (s < i ==> live[s] <= i) && (s > i ==> j <= s)
    {
      assert Used(live, s);
    }
    var live' := live[i := j];
    forall w: nat
      ensures Used(live', w) <==> Used(live, w) || i <= w < j
    {
      if Used(live, w) {
        var s :| s in live && s <= w < live[s];
        assert s in live' && live'[s] == live[s];
      }
      if i <= w < j {
        assert i in live';
      }
    }
  }

  /** The end of a live block is its own, and no other block ends inside it. */
  lemma OwnEnd(live: Live, n: nat, s: nat)
    requires Disjoint(live, n) && s in live
    ensures forall k | s < k < live[s] :: !EndsAt(live, k)
    ensures Disjoint(live - {s}, n) && !EndsAt(live - {s}, live[s])
    ensures forall k: nat :: EndsAt(live - {s}, k) <==> EndsAt(live, k) && k != live[s]
  {
    var live' := live - {s};
    assert forall t | t in live' :: t in live && live'[t] == live[t];
    forall k: nat
      ensures EndsAt(live', k) <==> EndsAt(live, k) && k != live[s]
    {
      if EndsAt(live, k) && k != live[s] {
        var t :| t in live && live[t] == k;
        assert t in live';
      }
    }
  }

  // ---------- holes ----------

  datatype Hole = Hole(start: nat, len: nat) {
    function End(): nat {
      start + len
    }
  }

  /** The last hole reaches `k`. */
  predicate LastOpen(hs: seq<Hole>, k: nat) {
    hs != [] && hs[|hs| - 1].End() == k
  }

  /** The holes below `k + 1` from those below `k`: a free word opens a hole or lengthens the last. */
  function Extend(hs: seq<Hole>, k: nat, free: bool): seq<Hole> {
    if !free then hs
    else if LastOpen(hs, k) then hs[..|hs| - 1] + [Hole(hs[|hs| - 1].start, hs[|hs| - 1].len + 1)]
    else hs + [Hole(k, 1)]
  }

  /** The maximal runs of free words below `k`, in increasing order. */
  function Holes(live: Live, k: nat): seq<Hole> {
    if k == 0 then [] else Extend(Holes(live, k - 1), k - 1, !Used(live, k - 1))
  }

  /** Non-empty intervals in increasing order with at least one word between any two. */
  predicate Separated(hs: seq<Hole>, k: nat) {
    (forall i | 0 <= i < |hs| :: hs[i].len > 0 && hs[i].End() <= k)
    && (forall i, j | 0 <= i < j < |hs| :: hs[i].End() < hs[j].start)
  }

  predicate InHole(hs: seq<Hole>, w: nat) {
    exists i | 0 <= i < |hs| :: hs[i].start <= w < hs[i].End()
  }

  lemma ExtendSeparated(hs: seq<Hole>, k: nat, free: bool)
    requires Separated(hs, k)
    ensures Separated(Extend(hs, k, free), k + 1)
    ensures LastOpen(Extend(hs, k, free), k + 1) <==> free
  {
    var hs' := Extend(hs, k, free);
    if free {
      var last := |hs'| - 1;
      assert forall i | 0 <= i < last :: hs'[i] == hs[i];
      assert hs'[last].End() == k + 1;
    }
  }

  lemma ExtendCover(hs: seq<Hole>, k: nat, free: bool, w: nat)
    requires Separated(hs, k) && w <= k
    ensures InHole(Extend(hs, k, free), w) <==> if w == k then free else InHole(hs, w)
  {
    hide InHole;
    BeyondHoles(hs, k);
    if !free {
    } else if LastOpen(hs, k) {
      var last := hs[|hs| - 1];
      InHoleOfLast(hs[..|hs| - 1], last, w);
      InHoleOfLast(hs[..|hs| - 1], Hole(last.start, last.len + 1), w);
      assert hs == hs[..|hs| - 1] + [last];
    } else {
      InHoleOfLast(hs, Hole(k, 1), w);
    }
  }

  lemma BeyondHoles(hs: seq<Hole>, k: nat)
    requires Separated(hs, k)
    ensures !InHole(hs, k)
    ensures hs != [] ==> !InHole(hs[..|hs| - 1], k)
  {
  }

  lemma InHoleOfLast(front: seq<Hole>, last: Hole, w: nat)
    ensures InHole(front + [last], w) <==> InHole(front, w) || last.start <= w < last.End()
  {
    var hs := front + [last];
    assert hs[|front|] == last && forall i | 0 <= i < |front| :: hs[i] == front[i];
  }

  lemma {:induction false} HolesSeparated(live: Live, k: nat)
    ensures Separated(Holes(live, k), k)
    ensures k > 0 ==> (LastOpen(Holes(live, k), k) <==> !Used(live, k - 1))
    decreases k
  {
    hide Used, Extend, Separated, LastOpen;
    if k > 0 {
      HolesSeparated(live, k - 1);
      ExtendSeparated(Holes(live, k - 1), k - 1, !Used(live, k - 1));
    } else {
      NoHoles();
    }
  }

  lemma NoHoles()
    ensures Separated([], 0)
  {
  }

  /** A word below `k` is free exactly when it lies in a listed hole. */
  lemma {:induction false} HolesCover(live: Live, k: nat, w: nat)
    requires w < k
    ensures InHole(Holes(live, k), w) <==> !Used(live, w)
    decreases k
  {
    hide Used, Extend, Separated, InHole;
    HolesSeparated(live, k - 1);
    ExtendCover(Holes(live, k - 1), k - 1, !Used(live, k - 1), w);
    if w < k - 1 {
      HolesCover(live, k - 1, w);
    }
  }

  /** `[b, e)` is a maximal run of free words of the pool. */
  predicate IsMaximal(live: Live, n: nat, b: nat, e: nat) {
    b < e <= n && Free(live, b, e) && (b == 0 || Used(live, b - 1)) && (e == n || Used(live, e))
  }

  /** The listed holes are the maximal runs of free words: all of them, and nothing else. */
  lemma HolesAreMaximal(live: Live, n: nat, b: nat, e: nat)
    requires b < e
    ensures Hole(b, e - b) in Holes(live, n) <==> IsMaximal(live, n, b, e)
  {
    var hs := Holes(live, n);
    HolesSeparated(live, n);
    forall w | 0 <= w < n
      ensures InHole(hs, w) <==> !Used(live, w)
    {
      HolesCover(live, n, w);
    }
    hide Used, Holes;
    if Hole(b, e - b) in hs {
      var i :| 0 <= i < |hs| && hs[i] == Hole(b, e - b);
      ListedIsMaximal(live, n, hs, i);
    }
    if IsMaximal(live, n, b, e) {
      MaximalIsListed(live, n, hs, b, e);
    }
  }

  lemma ListedIsMaximal(live: Live, n: nat, hs: seq<Hole>, i: nat)
    requires Separated(hs, n) && i < |hs|
    requires forall w | 0 <= w < n :: InHole(hs, w) <==> !Used(live, w)
    ensures IsMaximal(live, n, hs[i].start, hs[i].End())
  {
    hide Used;
    forall w | hs[i].start <= w < hs[i].End()
      ensures !Used(live, w)
    {
      assert InHole(hs, w);
    }
    assert hs[i].start > 0 ==> !InHole(hs, hs[i].start - 1);
    assert hs[i].End() < n ==> !InHole(hs, hs[i].End());
  }

  lemma MaximalIsListed(live: Live, n: nat, hs: seq<Hole>, b: nat, e: nat)
    requires Separated(hs, n) && IsMaximal(live, n, b, e)
    requires forall w | 0 <= w < n :: InHole(hs, w) <==> !Used(live, w)
    ensures Hole(b, e - b) in hs
  {
    hide Used;
    assert InHole(hs, b);
    var i :| 0 <= i < |hs| && hs[i].start <= b < hs[i].End();
    ListedIsMaximal(live, n, hs, i);
    assert hs[i].start == b;
    assert hs[i].End() == e;
    assert hs[i] == Hole(b, e - b);
  }

  // ---------- conservation ----------

  function UsedCount(live: Live, k: nat): nat {
    if k == 0 then 0 else UsedCount(live, k - 1) + if Used(live, k - 1) then 1 else 0
  }

  function TotalLength(hs: seq<Hole>): nat {
    if hs == [] then 0 else TotalLength(hs[..|hs| - 1]) + hs[|hs| - 1].len
  }

  /** Used words and hole lengths add up to the pool. */
  lemma {:induction false} Conservation(live: Live, k: nat)
    ensures UsedCount(live, k) + TotalLength(Holes(live, k)) == k
    decreases k
  {
    hide Used, Extend;
    if k > 0 {
      Conservation(live, k - 1);
      ExtendTotal(Holes(live, k - 1), k - 1, !Used(live, k - 1));
    }
  }

  lemma ExtendTotal(hs: seq<Hole>, k: nat, free: bool)
    ensures TotalLength(Extend(hs, k, free)) == TotalLength(hs) + if free then 1 else 0
  {
    var hs' := Extend(hs, k, free);
    if free {
      assert hs'[..|hs'| - 1] == if LastOpen(hs, k) then hs[..|hs| - 1] else hs;
    }
  }

  /** Holes cannot outnumber half the words, rounded up. */
  lemma {:induction false} HolesFit(live: Live, k: nat)
    ensures 2 * |Holes(live, k)| <= k + 1
    ensures k > 0 && Used(live, k - 1) ==> 2 * |Holes(live, k)| <= k
    decreases k
  {
    hide Used;
    if k > 0 {
      HolesFit(live, k - 1);
      HolesSeparated(live, k - 1);
    }
  }
}
