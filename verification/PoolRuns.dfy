/** Consequences over several calls: what comes back, what adds up, and what best and worst fit choose. */
module PoolRuns {
  import opened Paths
  import opened Blocks
  import opened CodeMap
  import opened Allocators
  import opened MemoryManager

  // ---------- restoring the map ----------

  /** `free` recovers the word index from the address that `allocate` made of it. */
  lemma AddressRoundTrip(i: nat, wordSize: nat)
    requires wordSize > 0
    ensures i * wordSize % wordSize == 0 && i * wordSize / wordSize == i
  {
    var x := i * wordSize;
    var q, r := x / wordSize, x % wordSize;
    assert x == q * wordSize + r;
    Distribute(i, q, wordSize);
    Multiples(i - q, wordSize);
  }

  lemma Distribute(i: int, q: int, w: int)
    ensures (i - q) * w == i * w - q * w
  {
  }

  /** Multiples of `w` other than zero are at least `w` away from zero. */
  lemma Multiples(d: int, w: int)
    requires w >= 0
    ensures d >= 1 ==> d * w >= w
    ensures d <= -1 ==> d * w <= -w
  {
    if d >= 1 {
      Distribute(d, 1, w);
      assert (d - 1) * w >= 0;
    } else if d <= -1 {
      Distribute(0, d, w);
      Distribute(-d, 1, w);
      assert (-d - 1) * w >= 0;
    }
  }

  lemma TakeAndGive(live: Live, i: nat, j: nat)
    requires i !in live
    ensures live[i := j] - {i} == live
  {
  }

  /** Whatever the callback does, freeing what was just allocated restores the map byte for byte. */
  method AllocateThenFree<S(!new)>(pool: MemoryManager<S>, size: nat)
    requires pool.Valid() && pool.mapped
    modifies pool, pool.codes
    ensures pool.Valid() && pool.live == old(pool.live) && pool.codes[..] == old(pool.codes[..])
  {
    hide Encodes, Respectful, Holes, Used, Pack;
    ghost var live, codes, st := pool.live, pool.codes[..], pool.state;
    var address := pool.Allocate(size);
    if address.Some? {
      ghost var words := WordsFor(size, pool.wordSize);
      ghost var i: nat := pool.allocator(words, Pack(Holes(live, pool.numWords)), st).0;
      AddressRoundTrip(i, pool.wordSize);
      TakeDisjoint(live, pool.numWords, i, i + words);
      TakeAndGive(live, i, i + words);
      pool.Free(address);
      MapDetermined(pool.codes[..], codes, live, pool.numWords);
    }
  }

  /** Two frees leave the same map in either order. */
  lemma FreesCommute(codes: seq<bv8>, live: Live, n: nat, a: nat, b: nat)
    requires Disjoint(live, n) && Encodes(codes, live, n) && a in live && b in live && a != b
    ensures a / 4 < |codes| && live[a] / 4 < |codes| && b / 4 < |codes| && live[b] / 4 < |codes|
    ensures FreeBits(FreeBits(codes, live, a), live - {a}, b) == FreeBits(FreeBits(codes, live, b), live - {b}, a)
  {
    hide Encodes, WithoutBit, EndsAt;
    FreeEncodes(codes, live, n, a);
    FreeEncodes(codes, live, n, b);
    OwnEnd(live, n, a);
    OwnEnd(live, n, b);
    FreeEncodes(FreeBits(codes, live, a), live - {a}, n, b);
    FreeEncodes(FreeBits(codes, live, b), live - {b}, n, a);
    assert live - {a} - {b} == live - {b} - {a};
    MapDetermined(FreeBits(FreeBits(codes, live, a), live - {a}, b), FreeBits(FreeBits(codes, live, b), live - {b}, a),
                  live - {a} - {b}, n);
  }

  /** The map that `initialize` leaves. */
  function InitialMap(n: nat): seq<bv8> {
    WithBit(seq(n / 4 + 1, _ => 0)[0 := 1], n, 2)
  }

  lemma EmptyPoolMap(codes: seq<bv8>, n: nat)
    requires Encodes(codes, map[], n)
    ensures codes == InitialMap(n)
  {
    InitialEncodes(seq(n / 4 + 1, _ => 0), n);
    MapDetermined(codes, InitialMap(n), map[], n);
  }

  /** Freeing all blocks, in any order, restores the map that `initialize` left. */
  method FreeAll<S(!new)>(pool: MemoryManager<S>, order: seq<nat>)
    requires pool.Valid() && pool.mapped
    requires forall s :: s in order <==> s in pool.live
    requires forall i, j | 0 <= i < j < |order| :: order[i] != order[j]
    modifies pool, pool.codes
    ensures pool.Valid() && pool.live == map[] && pool.codes[..] == InitialMap(pool.numWords)
  {
    hide Encodes, Respectful, Disjoint, InitialMap;
    for k := 0 to |order|
      invariant pool.Valid() && pool.mapped && pool.codes == old(pool.codes)
      invariant forall s :: s in pool.live <==> s in order[k..]
    {
      AddressRoundTrip(order[k], pool.wordSize);
      assert order[k..] == [order[k]] + order[k + 1..];
      pool.Free(Some(order[k] * pool.wordSize));
    }
    assert pool.live == map[];
    EmptyPoolMap(pool.codes[..], pool.numWords);
  }

  // ---------- whole runs ----------

  /** What a client does; `Release` gives back one of the addresses it holds. */
  datatype PoolOp = Start(words: nat) | Request(size: nat) | Release(which: nat)

  /** The address of a word. */
  function AddressOf(s: nat, wordSize: nat): nat {
    s * wordSize
  }

  /** `held` lists the addresses of the starts of the live blocks, each once. */
  predicate HoldsAll(held: seq<nat>, starts: seq<nat>, live: Live, wordSize: nat) {
    |held| == |starts|
    && (forall i | 0 <= i < |held| :: held[i] == AddressOf(starts[i], wordSize))
    && (forall i, j | 0 <= i < j < |starts| :: starts[i] != starts[j])
    && (forall i | 0 <= i < |starts| :: starts[i] in live)
    && (forall s | s in live :: s in starts)
  }

  lemma HoldMore(held: seq<nat>, starts: seq<nat>, live: Live, wordSize: nat, s: nat, e: nat)
    requires HoldsAll(held, starts, live, wordSize) && s !in live
    ensures HoldsAll(held + [AddressOf(s, wordSize)], starts + [s], live[s := e], wordSize)
  {
    hide AddressOf;
  }

  lemma HoldLess(held: seq<nat>, starts: seq<nat>, live: Live, wordSize: nat, k: nat)
    requires HoldsAll(held, starts, live, wordSize) && k < |held|
    ensures HoldsAll(held[..k] + held[k + 1..], starts[..k] + starts[k + 1..], live - {starts[k]}, wordSize)
  {
    hide AddressOf;
    var less := starts[..k] + starts[k + 1..];
    forall s | s in live - {starts[k]}
      ensures s in less
    {
      var i :| 0 <= i < |starts| && starts[i] == s;
      assert less[if i < k then i else i - 1] == s;
    }
  }

  /**
   * Over every run, with any callback that meets its contract, the addresses handed out and
   * not yet released are exactly those of the live blocks, and each can be released.
   */
  method RunPool<S(!new)>(pool: MemoryManager<S>, ops: seq<PoolOp>) returns (held: seq<nat>, ghost starts: seq<nat>)
    requires pool.Valid() && !pool.mapped
    requires forall i | 0 <= i < |ops| && ops[i].Start? :: ops[i].words <= 0xffff && (ops[i].words + 1) / 2 <= pool.most
    modifies pool, pool.codes
    ensures pool.Valid() && (pool.mapped ==> HoldsAll(held, starts, pool.live, pool.wordSize))
  {
    hide Encodes, Respectful, Holes, Used, Pack, HoldsAll, Disjoint, Separated;
    held, starts := [], [];
    for k := 0 to |ops|
      invariant pool.Valid() && (pool.codes == old(pool.codes) || fresh(pool.codes))
      invariant pool.mapped ==> HoldsAll(held, starts, pool.live, pool.wordSize)
    {
      match ops[k] {
        case Start(words) =>
          pool.Initialize(words);
          held, starts := [], [];
          HoldNothing(pool.wordSize);
        case Request(size) =>
          ghost var live, st := pool.live, pool.state;
          var address := pool.Allocate(size);
          if address.Some? {
            ghost var words := WordsFor(size, pool.wordSize);
            ghost var i: nat := pool.allocator(words, Pack(Holes(live, pool.numWords)), st).0;
            TakeDisjoint(live, pool.numWords, i, i + words);
            HoldMore(held, starts, live, pool.wordSize, i, i + words);
            held, starts := held + [address.value], starts + [i];
          }
        case Release(which) =>
          if pool.mapped && which < |held| {
            HeldIsLive(held, starts, pool.live, pool.wordSize, which);
            HoldLess(held, starts, pool.live, pool.wordSize, which);
            pool.Free(Some(held[which]));
            held, starts := held[..which] + held[which + 1..], starts[..which] + starts[which + 1..];
          }
      }
    }
  }

  lemma HoldNothing(wordSize: nat)
    ensures HoldsAll([], [], map[], wordSize)
  {
  }

  lemma HeldIsLive(held: seq<nat>, starts: seq<nat>, live: Live, wordSize: nat, k: nat)
    requires wordSize > 0 && HoldsAll(held, starts, live, wordSize) && k < |held|
    ensures k < |starts| && held[k] % wordSize == 0 && held[k] / wordSize == starts[k] && starts[k] in live
  {
    AddressRoundTrip(starts[k], wordSize);
  }

  // ---------- bitmap and list ----------

  /** Set bits among the first `k`. */
  function PopCount(bitmap: seq<bv8>, k: nat): nat
    requires k <= 8 * |bitmap|
  {
    if k == 0 then 0 else PopCount(bitmap, k - 1) + if BitmapBit(bitmap, k - 1) then 1 else 0
  }

  /** The bitmap and the hole list account for every word of the pool exactly once. */
  lemma BitmapComplementsList(bitmap: seq<bv8>, live: Live, n: nat)
    requires |bitmap| == (n + 7) / 8
    requires forall i: nat | i < 8 * |bitmap| :: BitmapBit(bitmap, i) <==> i < n && Used(live, i)
    ensures PopCount(bitmap, 8 * |bitmap|) + TotalLength(Holes(live, n)) == n
    ensures forall i: nat | i < n :: !BitmapBit(bitmap, i) <==> InHole(Holes(live, n), i)
  {
    hide Used, BitmapBit, Holes;
    PopCountUsed(bitmap, live, n, 8 * |bitmap|);
    Conservation(live, n);
    forall i: nat | i < n
      ensures !BitmapBit(bitmap, i) <==> InHole(Holes(live, n), i)
    {
      HolesCover(live, n, i);
    }
  }

  lemma {:induction false} PopCountUsed(bitmap: seq<bv8>, live: Live, n: nat, k: nat)
    requires n <= 8 * |bitmap| && k <= 8 * |bitmap|
    requires forall i: nat | i < 8 * |bitmap| :: BitmapBit(bitmap, i) <==> i < n && Used(live, i)
    ensures PopCount(bitmap, k) == UsedCount(live, if k < n then k else n)
    decreases k
  {
    hide Used, BitmapBit;
    if k > 0 {
      PopCountUsed(bitmap, live, n, k - 1);
    }
  }

  // ---------- best fit and worst fit ----------

  /** `[b, e)` is a maximal hole with room for `words`. */
  predicate Adequate(live: Live, n: nat, words: nat, b: nat, e: nat) {
    IsMaximal(live, n, b, e) && e - b >= words
  }

  /**
   * With `bestFit` a request fails exactly when no maximal hole has room; otherwise it takes
   * the start of the smallest such hole, the lowest-addressed one among equals.
   */
  lemma BestFitChoice<S(!new)>(live: Live, n: nat, words: nat, st: S)
    requires n <= 0xffff && words > 0
    ensures Separated(Holes(live, n), 0xffff) && |Holes(live, n)| <= 0x8000
    ensures var r := BestFitCallback<S>()(words, Pack(Holes(live, n)), st).0;
            if r < 0 then r == -1 && forall b: nat, e: nat | b < e :: !Adequate(live, n, words, b, e)
            else exists e: nat :: Adequate(live, n, words, r, e)
                   && forall b: nat, e': nat | Adequate(live, n, words, b, e') ::
                        e - r < e' - b || (e - r == e' - b && r <= b)
  {
    hide Holes, Pack, IsMaximal, Best, Separated;
    HolesPack(live, n);
    var hs := Holes(live, n);
    BestIsBest(hs, words, |hs|);
    var best := Best(hs, words, |hs|);
    assert BestFitCallback<S>()(words, Pack(hs), st).0 == OffsetOf(hs, best);
    if best.Some? {
      ListedAdequate(live, n, words, best.value);
    }
    forall b: nat, e: nat | b < e && Adequate(live, n, words, b, e)
      ensures best.Some?
              && (hs[best.value].len < e - b || (hs[best.value].len == e - b && hs[best.value].start <= b))
    {
      var j := AdequateListed(live, n, words, b, e);
      InAddressOrder(hs, if best.Some? then best.value else j, j);
    }
  }

  /** With `worstFit`: the start of the largest hole, the lowest-addressed one among equals. */
  lemma WorstFitChoice<S(!new)>(live: Live, n: nat, words: nat, st: S)
    requires n <= 0xffff && words > 0
    ensures Separated(Holes(live, n), 0xffff) && |Holes(live, n)| <= 0x8000
    ensures var r := WorstFitCallback<S>()(words, Pack(Holes(live, n)), st).0;
            if r < 0 then r == -1 && forall b: nat, e: nat | b < e :: !Adequate(live, n, words, b, e)
            else exists e: nat :: Adequate(live, n, words, r, e)
                   && forall b: nat, e': nat | Adequate(live, n, words, b, e') ::
                        e - r > e' - b || (e - r == e' - b && r <= b)
  {
    hide Holes, Pack, IsMaximal, Worst, Separated;
    HolesPack(live, n);
    var hs := Holes(live, n);
    WorstIsWorst(hs, words, |hs|);
    var worst := Worst(hs, words, |hs|);
    assert WorstFitCallback<S>()(words, Pack(hs), st).0 == OffsetOf(hs, worst);
    if worst.Some? {
      ListedAdequate(live, n, words, worst.value);
    }
    forall b: nat, e: nat | b < e && Adequate(live, n, words, b, e)
      ensures worst.Some?
              && (hs[worst.value].len > e - b || (hs[worst.value].len == e - b && hs[worst.value].start <= b))
    {
      var j := AdequateListed(live, n, words, b, e);
      InAddressOrder(hs, if worst.Some? then worst.value else j, j);
    }
  }

  /** `allocate` on an initialised pool whose callback is `bestFit`. */
  method AllocateBestFit<S(!new)>(pool: MemoryManager<S>, size: nat) returns (address: Option<nat>)
    requires pool.Valid() && pool.mapped && size > 0 && pool.allocator == BestFitCallback<S>()
    modifies pool, pool.codes
    ensures pool.Valid()
    ensures var words := WordsFor(size, pool.wordSize);
            (words - 1) * pool.wordSize < size <= words * pool.wordSize &&
            if address == None then
              pool.live == old(pool.live)
              && forall b: nat, e: nat | b < e :: !Adequate(old(pool.live), pool.numWords, words, b, e)
            else
              exists b: nat, e: nat | Adequate(old(pool.live), pool.numWords, words, b, e) ::
                address == Some(b * pool.wordSize) && pool.live == old(pool.live)[b := b + words]
                && forall b': nat, e': nat | Adequate(old(pool.live), pool.numWords, words, b', e') ::
                     e - b < e' - b' || (e - b == e' - b' && b <= b')
  {
    hide Encodes, Respectful, Holes, Used, Pack, Adequate, BestFitCallback, Separated;
    BestFitChoice<S>(pool.live, pool.numWords, WordsFor(size, pool.wordSize), pool.state);
    address := pool.Allocate(size);
  }

  /** The same with `worstFit`. */
  method AllocateWorstFit<S(!new)>(pool: MemoryManager<S>, size: nat) returns (address: Option<nat>)
    requires pool.Valid() && pool.mapped && size > 0 && pool.allocator == WorstFitCallback<S>()
    modifies pool, pool.codes
    ensures pool.Valid()
    ensures var words := WordsFor(size, pool.wordSize);
            (words - 1) * pool.wordSize < size <= words * pool.wordSize &&
            if address == None then
              pool.live == old(pool.live)
              && forall b: nat, e: nat | b < e :: !Adequate(old(pool.live), pool.numWords, words, b, e)
            else
              exists b: nat, e: nat | Adequate(old(pool.live), pool.numWords, words, b, e) ::
                address == Some(b * pool.wordSize) && pool.live == old(pool.live)[b := b + words]
                && forall b': nat, e': nat | Adequate(old(pool.live), pool.numWords, words, b', e') ::
                     e - b > e' - b' || (e - b == e' - b' && b <= b')
  {
    hide Encodes, Respectful, Holes, Used, Pack, Adequate, WorstFitCallback, Separated;
    WorstFitChoice<S>(pool.live, pool.numWords, WordsFor(size, pool.wordSize), pool.state);
    address := pool.Allocate(size);
  }

  lemma ListedAdequate(live: Live, n: nat, words: nat, i: nat)
    requires i < |Holes(live, n)| && Holes(live, n)[i].len >= words > 0
    ensures var h := Holes(live, n)[i]; Adequate(live, n, words, h.start, h.End())
  {
    hide Holes, IsMaximal;
    var h := Holes(live, n)[i];
    assert h == Hole(h.start, h.End() - h.start);
    HolesAreMaximal(live, n, h.start, h.End());
  }

  lemma AdequateListed(live: Live, n: nat, words: nat, b: nat, e: nat) returns (j: nat)
    requires b < e && Adequate(live, n, words, b, e)
    ensures j < |Holes(live, n)| && Holes(live, n)[j] == Hole(b, e - b)
  {
    hide Holes, IsMaximal;
    HolesAreMaximal(live, n, b, e);
    j :| 0 <= j < |Holes(live, n)| && Holes(live, n)[j] == Hole(b, e - b);
  }

  lemma InAddressOrder(hs: seq<Hole>, i: nat, j: nat)
    requires Separated(hs, 0xffff) && i < |hs| && j < |hs|
    ensures i <= j ==> hs[i].start <= hs[j].start
  {
  }
}
