/** Pools with more holes than the rotating allocator's 16-bit loop index can count past. */
module RotationLimit {
  import opened Blocks
  import opened CodeMap
  import opened Allocators
  import opened MemoryManager

  /** Every second word below `n` is a block of its own. */
  function Alternate(n: nat): Live {
    map s: nat | s < n && s % 2 == 1 :: s + 1
  }

  lemma AlternateUsed(n: nat)
    ensures Disjoint(Alternate(n), n)
    ensures forall w: nat :: Used(Alternate(n), w) <==> w < n && w % 2 == 1
  {
    forall w: nat
      ensures Used(Alternate(n), w) <==> w < n && w % 2 == 1
    {
      if w < n && w % 2 == 1 {
        assert w in Alternate(n);
      }
    }
  }

  lemma {:induction false} AlternateHoles(n: nat, k: nat)
    requires k <= n
    ensures |Holes(Alternate(n), k)| == (k + 1) / 2
    decreases k
  {
    hide Used, Alternate;
    AlternateUsed(n);
    if k > 0 {
      AlternateHoles(n, k - 1);
      HolesSeparated(Alternate(n), k - 1);
    }
  }

  /** Exactly the pools of at most 65534 words keep the allocator's loop finite in every state. */
  lemma LoopEndsInPool(n: nat)
    requires n <= 0xffff
    ensures (forall live: Live | Disjoint(live, n) :: LoopEnds(|Holes(live, n)|)) <==> n <= 0xfffe
  {
    hide Holes, Disjoint, Alternate, LoopEnds;
    AlternateUsed(n);
    AlternateHoles(n, n);
    LoopEndsIff((n + 1) / 2);
    forall live: Live | Disjoint(live, n) && n <= 0xfffe
      ensures LoopEnds(|Holes(live, n)|)
    {
      HolesFit(live, n);
      LoopEndsIff(|Holes(live, n)|);
    }
  }

  // ---------- the failing state is reachable ----------

  /** A callback that takes the odd words one after the other. */
  function PunchCallback(): Callback<nat> {
    (size, list, k) requires HasShape(list) =>
      if Answers(2 * k + 1, size, HolesIn(list)) then (2 * k + 1, k + 1) else (-1, k)
  }

  lemma PunchTakes(n: nat, k: nat)
    requires n <= 0xffff && 2 * k + 1 < n
    ensures Separated(Holes(Alternate(2 * k), n), 0xffff) && |Holes(Alternate(2 * k), n)| <= 0x8000
    ensures PunchCallback()(1, Pack(Holes(Alternate(2 * k), n)), k) == (2 * k + 1, k + 1)
  {
    hide Holes, Used, Pack, Separated, Alternate;
    var live := Alternate(2 * k);
    AlternateUsed(2 * k);
    HolesPack(live, n);
    HolesCover(live, n, 2 * k + 1);
    var hs := Holes(live, n);
    var i :| 0 <= i < |hs| && hs[i].start <= 2 * k + 1 < hs[i].End();
    assert Answers(2 * k + 1, 1, hs);
  }

  lemma PunchGrows(k: nat)
    ensures Alternate(2 * k)[2 * k + 1 := 2 * k + 2] == Alternate(2 * (k + 1))
  {
  }

  method Punch(pool: MemoryManager<nat>, k: nat)
    requires pool.Valid() && pool.mapped && pool.numWords == 0xffff && 2 * k + 1 < 0xffff
    requires pool.allocator == PunchCallback() && pool.state == k && pool.live == Alternate(2 * k)
    modifies pool, pool.codes
    ensures pool.Valid() && pool.mapped && pool.numWords == 0xffff && pool.codes == old(pool.codes)
    ensures pool.allocator == PunchCallback() && pool.state == k + 1 && pool.live == Alternate(2 * (k + 1))
  {
    hide Holes, Used, Pack, Separated, Encodes, Disjoint, Alternate, PunchCallback, Respectful;
    PunchTakes(0xffff, k);
    PunchGrows(k);
    assert WordsFor(1, pool.wordSize) == 1;
    var address := pool.Allocate(1);
  }

  /** Calls that bring a pool of 65535 words into a state with 32768 holes. */
  method ManyHoles(wordSize: nat) returns (pool: MemoryManager<nat>, list: array?<uint16>)
    requires wordSize > 0
    ensures pool.Valid() && pool.mapped && pool.numWords == 0xffff && pool.live == Alternate(0xffff)
    ensures list != null && list.Length > 0 && list[0] == 0x8000 && !LoopEnds(list[0])
  {
    hide Holes, Used, Separated, Encodes, Disjoint, Alternate, PunchCallback, Respectful, LoopEnds;
    PunchRespectful();
    pool := new MemoryManager<nat>(wordSize, PunchCallback(), 0, 0x8000);
    pool.Initialize(0xffff);
    NothingTaken();
    for k := 0 to 0x7fff
      invariant pool.Valid() && pool.mapped && pool.numWords == 0xffff && fresh(pool) && fresh(pool.codes)
      invariant pool.allocator == PunchCallback() && pool.state == k && pool.live == Alternate(2 * k)
    {
      Punch(pool, k);
    }
    LastWordFree();
    AlternateHoles(0xffff, 0xffff);
    list := pool.GetList();
    LoopEndsIff(0x8000);
  }

  lemma PunchRespectful()
    ensures Respectful(PunchCallback(), 0x8000)
  {
  }

  lemma NothingTaken()
    ensures Alternate(0) == map[]
  {
  }

  lemma LastWordFree()
    ensures Alternate(2 * 0x7fff) == Alternate(0xffff)
  {
  }
}
