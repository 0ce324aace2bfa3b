/** The packed map: two bits per word, four words per byte, low to high. */
module CodeMap {
  import opened Blocks

  /** Position of word `k`'s two bits in its byte: `(k & 3) << 1`. */
  function Shamt(k: nat): (s: bv8)
    ensures IsShamt(s)
  {
    match k % 4
    case 0 => 0
    case 1 => 2
    case 2 => 4
    case _ => 6
  }

  /** The bit `mask` (1 for low, 2 for high) of word `k`. */
  predicate Bit(codes: seq<bv8>, k: nat, mask: bv8)
    requires k / 4 < |codes|
  {
    codes[k / 4] & (mask << Shamt(k)) != 0
  }

  /** The two-bit code of word `k`. */
  function CodeAt(codes: seq<bv8>, k: nat): bv8
    requires k / 4 < |codes|
  {
    (codes[k / 4] >> Shamt(k)) & 3
  }

  predicate IsShamt(s: bv8) {
    s == 0 || s == 2 || s == 4 || s == 6
  }

  predicate IsMask(m: bv8) {
    m == 1 || m == 2
  }

  /** Two words with the same byte and the same bits are the same word. */
  lemma ShamtInjective(k: nat, j: nat)
    ensures k / 4 == j / 4 && Shamt(k) == Shamt(j) ==> k == j
  {
  }

  lemma CodeOfBits(b: bv8, s: bv8)
    requires IsShamt(s)
    ensures (b >> s) & 3 == (if b & (2 << s) != 0 then 2 else 0) | (if b & (1 << s) != 0 then 1 else 0)
  {
  }

  lemma SetBit(b: bv8, s: bv8, m: bv8, t: bv8, l: bv8)
    requires IsShamt(s) && IsShamt(t) && IsMask(m) && IsMask(l)
    ensures (b | (m << s)) & (l << t) != 0 <==> b & (l << t) != 0 || (s == t && m == l)
  {
  }

  lemma ClearBit(b: bv8, s: bv8, m: bv8, t: bv8, l: bv8)
    requires IsShamt(s) && IsShamt(t) && IsMask(m) && IsMask(l)
    ensures b & !(m << s) & (l << t) != 0 <==> b & (l << t) != 0 && !(s == t && m == l)
  {
  }

  lemma ByteFromCodes(a: bv8, b: bv8)
    requires (a >> 0) & 3 == (b >> 0) & 3 && (a >> 2) & 3 == (b >> 2) & 3
    requires (a >> 4) & 3 == (b >> 4) & 3 && (a >> 6) & 3 == (b >> 6) & 3
    ensures a == b
  {
  }

  // ---------- what the map says about the live blocks ----------

  /**
   * The map of a pool of `n` words: high bit at `k` iff a block starts there or `k == n`,
   * low bit at `k` iff a block ends there or `k == 0`, for every word a byte has room for.
   */
  ghost predicate Encodes(codes: seq<bv8>, live: Live, n: nat) {
    |codes| == n / 4 + 1
    && (forall k: nat | k / 4 < |codes| :: Bit(codes, k, 2) <==> High(live, n, k))
    && (forall k: nat | k / 4 < |codes| :: Bit(codes, k, 1) <==> Low(live, k))
  }

  /** The code of a word, as `getList` and `getBitmap` read it. */
  function CodeOf(live: Live, n: nat, k: nat): bv8 {
    (if High(live, n, k) then 2 else 0) | (if Low(live, k) then 1 else 0)
  }

  lemma CodeRead(codes: seq<bv8>, live: Live, n: nat, k: nat)
    requires Encodes(codes, live, n) && k / 4 < |codes|
    ensures CodeAt(codes, k) == CodeOf(live, n, k)
  {
    hide High, Low, Shamt;
    CodeOfBits(codes[k / 4], Shamt(k));
    assert Bit(codes, k, 2) <==> High(live, n, k);
    assert Bit(codes, k, 1) <==> Low(live, k);
  }

  lemma CodesOfByte(codes: seq<bv8>, i: nat)
    requires i < |codes|
    ensures CodeAt(codes, 4 * i) == (codes[i] >> 0) & 3 && CodeAt(codes, 4 * i + 1) == (codes[i] >> 2) & 3
    ensures CodeAt(codes, 4 * i + 2) == (codes[i] >> 4) & 3 && CodeAt(codes, 4 * i + 3) == (codes[i] >> 6) & 3
  {
  }

  /** The map bytes are a function of the live blocks alone. */
  lemma MapDetermined(a: seq<bv8>, b: seq<bv8>, live: Live, n: nat)
    requires Encodes(a, live, n) && Encodes(b, live, n)
    ensures a == b
  {
    hide High, Low, Shamt, CodeOf, CodeAt;
    forall i | 0 <= i < |a|
      ensures a[i] == b[i]
    {
      forall k | 4 * i <= k <= 4 * i + 3
        ensures CodeAt(a, k) == CodeAt(b, k)
      {
        CodeRead(a, live, n, k);
        CodeRead(b, live, n, k);
      }
      CodesOfByte(a, i);
      CodesOfByte(b, i);
      ByteFromCodes(a[i], b[i]);
    }
  }

  /** Where the bits of four words lie in their byte: from low to high, and for each its low bit first. */
  lemma ByteLayout(codes: seq<bv8>, live: Live, n: nat, j: nat)
    requires Encodes(codes, live, n) && j < |codes|
    ensures codes[j] & 0x01 != 0 <==> Low(live, 4 * j)
    ensures codes[j] & 0x02 != 0 <==> High(live, n, 4 * j)
    ensures codes[j] & 0x04 != 0 <==> Low(live, 4 * j + 1)
    ensures codes[j] & 0x08 != 0 <==> High(live, n, 4 * j + 1)
    ensures codes[j] & 0x10 != 0 <==> Low(live, 4 * j + 2)
    ensures codes[j] & 0x20 != 0 <==> High(live, n, 4 * j + 2)
    ensures codes[j] & 0x40 != 0 <==> Low(live, 4 * j + 3)
    ensures codes[j] & 0x80 != 0 <==> High(live, n, 4 * j + 3)
  {
    hide High, Low;
    forall k | 4 * j <= k <= 4 * j + 3
      ensures Bit(codes, k, 1) <==> Low(live, k)
      ensures Bit(codes, k, 2) <==> High(live, n, k)
    {
    }
    Masks(codes, j);
  }

  lemma Masks(codes: seq<bv8>, j: nat)
    requires j < |codes|
    ensures Bit(codes, 4 * j, 1) == (codes[j] & 0x01 != 0) && Bit(codes, 4 * j, 2) == (codes[j] & 0x02 != 0)
    ensures Bit(codes, 4 * j + 1, 1) == (codes[j] & 0x04 != 0) && Bit(codes, 4 * j + 1, 2) == (codes[j] & 0x08 != 0)
    ensures Bit(codes, 4 * j + 2, 1) == (codes[j] & 0x10 != 0) && Bit(codes, 4 * j + 2, 2) == (codes[j] & 0x20 != 0)
    ensures Bit(codes, 4 * j + 3, 1) == (codes[j] & 0x40 != 0) && Bit(codes, 4 * j + 3, 2) == (codes[j] & 0x80 != 0)
  {
  }

  // ---------- one bit of the map changes ----------

  function WithBit(codes: seq<bv8>, k: nat, m: bv8): (r: seq<bv8>)
    requires k / 4 < |codes|
    ensures |r| == |codes|
  {
    codes[k / 4 := codes[k / 4] | (m << Shamt(k))]
  }

  function WithoutBit(codes: seq<bv8>, k: nat, m: bv8): (r: seq<bv8>)
    requires k / 4 < |codes|
    ensures |r| == |codes|
  {
    codes[k / 4 := codes[k / 4] & !(m << Shamt(k))]
  }

  lemma BitSet(codes: seq<bv8>, k: nat, m: bv8, j: nat, l: bv8)
    requires k / 4 < |codes| && j / 4 < |codes| && IsMask(m) && IsMask(l)
    ensures Bit(WithBit(codes, k, m), j, l) <==> Bit(codes, j, l) || (j == k && l == m)
  {
    hide Shamt;
    SetBit(codes[k / 4], Shamt(k), m, Shamt(j), l);
    ShamtInjective(k, j);
  }

  lemma BitCleared(codes: seq<bv8>, k: nat, m: bv8, j: nat, l: bv8)
    requires k / 4 < |codes| && j / 4 < |codes| && IsMask(m) && IsMask(l)
    ensures Bit(WithoutBit(codes, k, m), j, l) <==> Bit(codes, j, l) && !(j == k && l == m)
  {
    hide Shamt;
    ClearBit(codes[k / 4], Shamt(k), m, Shamt(j), l);
    ShamtInjective(k, j);
  }

  /** Two bits record a new block. */
  lemma TakeEncodes(codes: seq<bv8>, live: Live, n: nat, i: nat, j: nat)
    requires Disjoint(live, n) && Encodes(codes, live, n) && i < j <= n && Free(live, i, j)
    ensures i / 4 < |codes| && j / 4 < |codes|
    ensures Encodes(WithBit(WithBit(codes, i, 2), j, 1), live[i := j], n)
  {
    hide Bit, WithBit, Disjoint, Free, EndsAt;
    TakeDisjoint(live, n, i, j);
    assert i / 4 <= n / 4 && j / 4 <= n / 4;
    forall k: nat | k / 4 < |codes|
      ensures Bit(WithBit(WithBit(codes, i, 2), j, 1), k, 2) <==> High(live[i := j], n, k)
      ensures Bit(WithBit(WithBit(codes, i, 2), j, 1), k, 1) <==> Low(live[i := j], k)
    {
      BitSet(codes, i, 2, k, 2);
      BitSet(codes, i, 2, k, 1);
      BitSet(WithBit(codes, i, 2), j, 1, k, 2);
      BitSet(WithBit(codes, i, 2), j, 1, k, 1);
      EndsAtTaken(live, i, j, k);
    }
  }

  lemma EndsAtTaken(live: Live, i: nat, j: nat, k: nat)
    requires i !in live
    ensures EndsAt(live[i := j], k) <==> EndsAt(live, k) || k == j
  {
    var live' := live[i := j];
    assert i in live' && live'[i] == j;
    if EndsAt(live, k) {
      var s :| s in live && live[s] == k;
      assert s in live' && live'[s] == k;
    }
  }

  /** What `free` does to the map: it clears the high bit at the start and the low bit at the end. */
  function FreeBits(codes: seq<bv8>, live: Live, s: nat): seq<bv8>
    requires s in live && s / 4 < |codes| && live[s] / 4 < |codes|
  {
    WithoutBit(WithoutBit(codes, s, 2), live[s], 1)
  }

  /** Two bits erase a block. */
  lemma FreeEncodes(codes: seq<bv8>, live: Live, n: nat, s: nat)
    requires Disjoint(live, n) && Encodes(codes, live, n) && s in live
    ensures s / 4 < |codes| && live[s] / 4 < |codes|
    ensures Encodes(FreeBits(codes, live, s), live - {s}, n)
  {
    hide Bit, WithoutBit, EndsAt;
    OwnEnd(live, n, s);
    var e := live[s];
    assert s / 4 <= n / 4 && e / 4 <= n / 4;
    forall k: nat | k / 4 < |codes|
      ensures Bit(WithoutBit(WithoutBit(codes, s, 2), e, 1), k, 2) <==> High(live - {s}, n, k)
      ensures Bit(WithoutBit(WithoutBit(codes, s, 2), e, 1), k, 1) <==> Low(live - {s}, k)
    {
      BitCleared(codes, s, 2, k, 2);
      BitCleared(codes, s, 2, k, 1);
      BitCleared(WithoutBit(codes, s, 2), e, 1, k, 2);
      BitCleared(WithoutBit(codes, s, 2), e, 1, k, 1);
    }
  }

  /** The map that `initialize` writes. */
  lemma InitialEncodes(codes: seq<bv8>, n: nat)
    requires |codes| == n / 4 + 1 && (forall i | 0 <= i < |codes| :: codes[i] == 0)
    ensures Encodes(WithBit(codes[0 := 1], n, 2), map[], n)
  {
    var one := codes[0 := 1];
    var end := WithBit(one, n, 2);
    forall k: nat | k / 4 < |codes|
      ensures Bit(end, k, 2) <==> High(map[], n, k)
      ensures Bit(end, k, 1) <==> Low(map[], k)
    {
      FirstByte(one, k);
      BitSet(one, n, 2, k, 2);
      BitSet(one, n, 2, k, 1);
    }
  }

  lemma FirstByte(one: seq<bv8>, k: nat)
    requires k / 4 < |one| && one[0] == 1 && forall i | 0 < i < |one| :: one[i] == 0
    ensures !Bit(one, k, 2)
    ensures Bit(one, k, 1) <==> k == 0
  {
    ShamtInjective(k, 0);
    NoBits(one[k / 4], Shamt(k));
  }

  /** The bits of the bytes 0 and 1. */
  lemma NoBits(b: bv8, s: bv8)
    requires IsShamt(s) && (b == 0 || b == 1)
    ensures b & (2 << s) == 0
    ensures b & (1 << s) != 0 <==> b == 1 && s == 0
  {
  }
}
