/** The word allocator whose only state is the packed map. */
module MemoryManager {
  import opened Paths
  import opened Blocks
  import opened CodeMap
  import opened Allocators

  /** Offset and length cells of some holes. */
  function Cells(hs: seq<Hole>, k: nat): (cells: seq<uint16>)
    requires Separated(hs, k) && k <= 0xffff
    ensures |cells| == 2 * |hs|
    ensures forall i | 0 <= i < |hs| :: cells[2 * i] == hs[i].start && cells[2 * i + 1] == hs[i].len
  {
    if hs == [] then []
    else
      var front := hs[..|hs| - 1];
      assert forall i | 0 <= i < |front| :: front[i] == hs[i];
      Cells(front, k) + [hs[|hs| - 1].start, hs[|hs| - 1].len]
  }

  /** The list that `getList` builds for some holes. */
  function Pack(hs: seq<Hole>): (list: seq<uint16>)
    requires Separated(hs, 0xffff) && |hs| <= 0x8000
    ensures IsHoleList(list) && HolesIn(list) == hs
  {
    hide Separated;
    var list := [|hs|] + Cells(hs, 0xffff);
    assert forall i | 0 <= i < |hs| :: HolesIn(list)[i] == hs[i];
    list
  }

  /** A list is determined by its holes. */
  lemma ListFromHoles(a: seq<uint16>, b: seq<uint16>)
    requires HasShape(a) && HasShape(b) && HolesIn(a) == HolesIn(b)
    ensures a == b
  {
    assert a[0] == |HolesIn(a)| == |HolesIn(b)| == b[0];
    forall i | 0 <= i < |a|
      ensures a[i] == b[i]
    {
      if i > 0 {
        SameCell(a, b, (i - 1) / 2);
        assert i == 1 + 2 * ((i - 1) / 2) || i == 2 + 2 * ((i - 1) / 2);
      }
    }
  }

  lemma SameCell(a: seq<uint16>, b: seq<uint16>, j: nat)
    requires HasShape(a) && HasShape(b) && HolesIn(a) == HolesIn(b) && j < a[0]
    ensures a[1 + 2 * j] == b[1 + 2 * j] && a[2 + 2 * j] == b[2 + 2 * j]
  {
    assert HolesIn(a)[j] == HolesIn(b)[j];
  }

  /** The count comes first, then offset and length of each hole. */
  lemma PackCells(hs: seq<Hole>)
    requires Separated(hs, 0xffff) && |hs| <= 0x8000
    ensures |Pack(hs)| == 1 + 2 * |hs| && Pack(hs)[0] == |hs|
    ensures forall i | 0 <= i < |hs| :: Pack(hs)[2 * i + 1] == hs[i].start && Pack(hs)[2 * i + 2] == hs[i].len
  {
    hide Pack, Separated;
    assert forall i | 0 <= i < |hs| :: HolesIn(Pack(hs))[i] == hs[i];
  }

  lemma HolesPack(live: Live, n: nat)
    requires n <= 0xffff
    ensures Separated(Holes(live, n), 0xffff) && |Holes(live, n)| <= 0x8000
  {
    HolesSeparated(live, n);
    HolesFit(live, n);
  }

  /** `ceil(size / wordSize)`. */
  function WordsFor(size: nat, wordSize: nat): nat
    requires size > 0 && wordSize > 0
  {
    (size - 1) / wordSize + 1
  }

  /** The words are enough for the bytes, and with one less they would not be. */
  lemma WordsSuffice(size: nat, wordSize: nat)
    requires size > 0 && wordSize > 0
    ensures WordsFor(size, wordSize) > 0
    ensures (WordsFor(size, wordSize) - 1) * wordSize < size <= WordsFor(size, wordSize) * wordSize
  {
    var q := (size - 1) / wordSize;
    assert size - 1 == q * wordSize + (size - 1) % wordSize;
    assert (q + 1) * wordSize == q * wordSize + wordSize;
  }

  function Min(a: nat, b: nat): nat {
    if a < b then a else b
  }

  /** The scan of `getList` stands inside a hole before it reads the code of `i`. */
  predicate OpenAt(live: Live, n: nat, i: nat) {
    0 < i <= n && !Used(live, i - 1)
  }

  /**
   * Cells up to `p` hold the holes `hs` so far; while the last is open, its length is not
   * written yet.
   */
  predicate Filled(list: seq<uint16>, p: nat, hs: seq<Hole>, open: bool) {
    (open ==> hs != []) && p == 2 * |hs| - (if open then 1 else 0) && p < |list|
    && (forall j | 0 <= j < |hs| :: list[1 + 2 * j] == hs[j].start)
    && (forall j | 0 <= j < |hs| - (if open then 1 else 0) :: list[2 + 2 * j] == hs[j].len)
  }

  lemma FilledIsPack(list: seq<uint16>, p: nat, hs: seq<Hole>)
    requires Separated(hs, 0xffff) && |hs| <= 0x8000
    requires Filled(list, p, hs, false) && |list| == 1 + 2 * |hs| && list[0] == |hs|
    ensures list == Pack(hs)
  {
    hide Separated, Pack;
    assert forall i | 0 <= i < |hs| :: HolesIn(list)[i] == hs[i];
    assert HolesIn(list) == hs;
    ListFromHoles(list, Pack(hs));
  }

  lemma NoneBelow(live: Live, n: nat)
    ensures Holes(live, 0) == [] && !OpenAt(live, n, 0) && !OpenAt(live, n, n + 1)
  {
  }

  lemma FilledNone(list: seq<uint16>)
    requires list != []
    ensures Filled(list, 0, [], false)
  {
  }

  /** A hole begins: its offset goes into the next cell. */
  lemma FillOpen(list: seq<uint16>, p: nat, hs: seq<Hole>, i: uint16)
    requires Filled(list, p, hs, false) && 2 * |hs| + 2 < |list|
    ensures p + 1 < |list| && Filled(list[p + 1 := i], p + 1, hs + [Hole(i, 1)], true)
  {
  }

  /** The open hole ends: its length goes into the next cell. */
  lemma FillClose(list: seq<uint16>, p: nat, hs: seq<Hole>, i: uint16)
    requires Filled(list, p, hs, true) && 2 * |hs| < |list| && LastOpen(hs, i)
    ensures p + 1 < |list| && hs != [] && list[p] == hs[|hs| - 1].start && 0 <= i - hs[|hs| - 1].start < 0x1_0000
    ensures Filled(list[p + 1 := i - hs[|hs| - 1].start], p + 1, hs, false)
  {
    assert list[p] == list[1 + 2 * (|hs| - 1)];
  }

  /** The open hole goes on: nothing is written. */
  lemma FillKeep(list: seq<uint16>, p: nat, hs: seq<Hole>)
    requires Filled(list, p, hs, true)
    ensures Filled(list, p, hs[..|hs| - 1] + [Hole(hs[|hs| - 1].start, hs[|hs| - 1].len + 1)], true)
  {
  }

  /** What the code of a word tells about the holes below it and up to it. */
  lemma CodeStep(live: Live, n: nat, i: nat)
    requires Disjoint(live, n) && i <= n
    ensures CodeOf(live, n, i) == 1 ==>
              i < n && !OpenAt(live, n, i) && OpenAt(live, n, i + 1)
              && Holes(live, i + 1) == Holes(live, i) + [Hole(i, 1)]
    ensures CodeOf(live, n, i) == 2 ==>
              OpenAt(live, n, i) && LastOpen(Holes(live, i), i) && !OpenAt(live, n, i + 1)
              && (i < n ==> Holes(live, i + 1) == Holes(live, i))
    ensures CodeOf(live, n, i) != 1 && CodeOf(live, n, i) != 2 ==>
              (OpenAt(live, n, i + 1) <==> OpenAt(live, n, i))
              && (i < n && !OpenAt(live, n, i) ==> Holes(live, i + 1) == Holes(live, i))
              && (OpenAt(live, n, i) ==>
                    i < n && LastOpen(Holes(live, i), i)
                    && var hs := Holes(live, i);
                    Holes(live, i + 1) == hs[..|hs| - 1] + [Hole(hs[|hs| - 1].start, hs[|hs| - 1].len + 1)])
    ensures i < n ==> |Holes(live, i + 1)| == |Holes(live, i)| + if CodeOf(live, n, i) == 1 then 1 else 0
  {
    hide Used, High, Low;
    CodeMeaning(live, n, i);
    HolesSeparated(live, i);
  }

  lemma {:induction false} HolesGrow(live: Live, i: nat, n: nat)
    requires i <= n
    ensures |Holes(live, i)| <= |Holes(live, n)|
    decreases n - i
  {
    hide Used;
    if i < n {
      HolesGrow(live, i + 1, n);
    }
  }

  lemma CallbackAnswers<S(!new)>(f: Callback<S>, most: nat, size: nat, hs: seq<Hole>, st: S)
    requires Respectful(f, most) && size > 0 && Separated(hs, 0xffff) && |hs| <= 0x8000 && |hs| <= most
    ensures f.requires(size, Pack(hs), st) && Answers(f(size, Pack(hs), st).0, size, hs)
  {
  }

  class MemoryManager<S(!new)> {
    const wordSize: nat
    var allocator: Callback<S>
    /** How many holes the callback can cope with. */
    ghost const most: nat
    /** What the callback has captured. */
    var state: S
    /** `pool != nullptr`. */
    var mapped: bool
    var numWords: nat
    /** The map, one byte for four words. */
    var codes: array<bv8>
    ghost var live: Live

    ghost predicate Valid()
      reads this, codes
    {
      wordSize > 0 && Respectful(allocator, most)
      && (mapped ==> numWords <= 0xffff && (numWords + 1) / 2 <= most)
      && (mapped ==> Disjoint(live, numWords) && Encodes(codes[..], live, numWords))
    }

    constructor (wordSize: nat, allocator: Callback<S>, state: S, ghost most: nat)
      requires wordSize > 0 && Respectful(allocator, most)
      ensures Valid() && !mapped && this.wordSize == wordSize && this.allocator == allocator && this.state == state
      ensures fresh(codes) && this.most == most
    {
      this.wordSize := wordSize;
      this.allocator := allocator;
      this.state := state;
      this.most := most;
      mapped := false;
      numWords := 0;
      codes := new bv8[0];
      live := map[];
    }

    method Shutdown()
      requires Valid()
      modifies `mapped
      ensures Valid() && !mapped
    {
      if mapped {
        mapped := false;
      }
    }

    method Initialize(sizeInWords: nat)
      requires Valid() && sizeInWords <= 0xffff && (sizeInWords + 1) / 2 <= most
      modifies this
      ensures Valid() && mapped && numWords == sizeInWords && live == map[]
      ensures fresh(codes) && allocator == old(allocator) && state == old(state)
    {
      Shutdown();
      numWords := sizeInWords;
      codes := new bv8[numWords / 4 + 1](_ => 0);
      InitialEncodes(codes[..], numWords);
      ghost var zero := codes[..];
      mapped := true;
      codes[0] := 1;
      assert codes[..] == zero[0 := 1];
      SetCodeBit(numWords, 2);
      live := map[];
    }

    /** The holes of the pool, or null without a pool. */
    method GetList() returns (list: array?<uint16>)
      requires Valid()
      ensures list == null <==> !mapped
      ensures mapped ==>
                Separated(Holes(live, numWords), 0xffff) && |Holes(live, numWords)| <= 0x8000
                && fresh(list) && list[..] == Pack(Holes(live, numWords))
                && list.Length == 1 + 2 * |Holes(live, numWords)| && list[0] == |Holes(live, numWords)|
                && forall i | 0 <= i < |Holes(live, numWords)| ::
                     list[2 * i + 1] == Holes(live, numWords)[i].start
                     && list[2 * i + 2] == Holes(live, numWords)[i].len
    {
      hide Used, Holes, Encodes, CodeOf, Disjoint, Respectful, Shamt, Filled, OpenAt, Pack, Separated, LastOpen;
      if !mapped {
        return null;
      }
      HolesPack(live, numWords);
      NoneBelow(live, numWords);
      var numHoles := CountHoles();
      list := new uint16[1 + numHoles * 2](_ => 0);
      var p := 0;
      list[0] := numHoles;
      FilledNone(list[..]);
      var begin: Option<nat> := None;
      for i := 0 to numWords + 1
        invariant list[0] == numHoles && p < list.Length
        invariant Filled(list[..], p, Holes(live, Min(i, numWords)), OpenAt(live, numWords, i))
        invariant OpenAt(live, numWords, i) ==> begin == Some(list[p])
      {
        var code := Code(i);
        CodeStep(live, numWords, i);
        HolesGrow(live, Min(i + 1, numWords), numWords);
        ghost var hs, was := Holes(live, i), list[..];
        if code == 1 {
          FillOpen(was, p, hs, i);
          begin := Some(i);
          p := p + 1;
          var cell: uint16 := i;
          list[p] := cell;
          assert list[..] == was[p := cell];
        } else if code == 2 {
          FillClose(was, p, hs, i);
          p := p + 1;
          var cell: uint16 := i - begin.value;
          list[p] := cell;
          assert list[..] == was[p := cell];
        } else if OpenAt(live, numWords, i) {
          FillKeep(was, p, hs);
        }
      }
      FilledIsPack(list[..], p, Holes(live, numWords));
      PackCells(Holes(live, numWords));
    }

    method SetCodeBit(k: nat, mask: bv8)
      requires k / 4 < codes.Length
      modifies codes
      ensures codes[..] == WithBit(old(codes[..]), k, mask)
    {
      hide Shamt, WithBit;
      ghost var was := codes[..];
      WithBitIs(was, k, mask);
      codes[k / 4] := codes[k / 4] | (mask << Shamt(k));
      assert codes[..] == was[k / 4 := codes[k / 4]];
    }

    method ClearCodeBit(k: nat, mask: bv8)
      requires k / 4 < codes.Length
      modifies codes
      ensures codes[..] == WithoutBit(old(codes[..]), k, mask)
    {
      hide Shamt, WithoutBit;
      ghost var was := codes[..];
      WithoutBitIs(was, k, mask);
      codes[k / 4] := codes[k / 4] & !(mask << Shamt(k));
      assert codes[..] == was[k / 4 := codes[k / 4]];
    }

    /** The two bits of word `i`. */
    method Code(i: nat) returns (code: bv8)
      requires Valid() && mapped && i <= numWords
      ensures code == CodeOf(live, numWords, i)
    {
      hide Disjoint, Respectful, High, Low;
      CodeRead(codes[..], live, numWords, i);
      code := (codes[i / 4] >> Shamt(i)) & 3;
    }

    /** The first loop of `getList`. */
    method CountHoles() returns (numHoles: nat)
      requires Valid() && mapped
      ensures numHoles == |Holes(live, numWords)|
    {
      hide Used, Holes, Encodes, CodeOf, Disjoint, Respectful, OpenAt, LastOpen;
      NoneBelow(live, numWords);
      numHoles := 0;
      for i := 0 to numWords
        invariant numHoles == |Holes(live, i)|
      {
        var code := Code(i);
        CodeStep(live, numWords, i);
        if code == 1 {
          numHoles := numHoles + 1;
        }
      }
    }

    /** Sets the two bits of a new block. */
    method Reserve(i: nat, words: nat)
      requires Valid() && mapped && words > 0 && i + words <= numWords && Blocks.Free(live, i, i + words)
      modifies codes, `live
      ensures Valid() && live == old(live)[i := i + words]
    {
      hide Used, Encodes, Disjoint, Blocks.Free, Respectful, EndsAt, WithBit;
      var j := i + words;
      TakeDisjoint(live, numWords, i, j);
      TakeEncodes(codes[..], live, numWords, i, j);
      SetCodeBit(i, 2);
      SetCodeBit(j, 1);
      live := live[i := j];
    }

    /**
     * Reserves the words the callback chooses. It fails without effect on pool and map when
     * there is no pool, nothing is asked for, or the callback declines.
     */
    method Allocate(size: nat) returns (address: Option<nat>)
      requires Valid()
      modifies this, codes
      ensures Valid() && codes == old(codes) && mapped == old(mapped) && numWords == old(numWords)
      ensures allocator == old(allocator)
      ensures !mapped || size == 0 ==>
                address == None && state == old(state) && live == old(live) && codes[..] == old(codes[..])
      ensures mapped && size > 0 ==>
                old(Separated(Holes(live, numWords), 0xffff) && |Holes(live, numWords)| <= 0x8000)
                && var words := WordsFor(size, wordSize);
                (words - 1) * wordSize < size <= words * wordSize
                && allocator.requires(words, old(Pack(Holes(live, numWords))), old(state))
                && var (answer, next) := allocator(words, old(Pack(Holes(live, numWords))), old(state));
                state == next
                && if answer < 0 then address == None && live == old(live) && codes[..] == old(codes[..])
                   else address == Some(answer * wordSize) && live == old(live)[answer := answer + words]
                        && answer + words <= numWords && old(Blocks.Free(live, answer, answer + words))
    {
      hide Holes, Used, Encodes, Answers, Pack, Separated, Disjoint, Blocks.Free, Shamt;
      if !mapped || size == 0 {
        return None;
      }
      var sizeWords := (size - 1) / wordSize + 1;
      WordsSuffice(size, wordSize);
      var list := GetList();
      HolesFit(live, numWords);
      CallbackAnswers(allocator, most, sizeWords, Holes(live, numWords), state);
      var (i, next) := allocator(sizeWords, list[..], state);
      state := next;
      if i < 0 {
        return None;
      }
      AnswerIsFree(live, numWords, i, sizeWords);
      Reserve(i, sizeWords);
      address := Some(i * wordSize);
    }

    /** Releases the live block at an address that `Allocate` returned. */
    method Free(address: Option<nat>)
      requires Valid()
      requires mapped && address.Some? ==> address.value % wordSize == 0 && address.value / wordSize in live
      modifies codes, `live
      ensures Valid()
      ensures !mapped || address == None ==> live == old(live) && codes[..] == old(codes[..])
      ensures mapped && address.Some? ==>
                var s := address.value / wordSize;
                live == old(live) - {s} && s / 4 < codes.Length && old(live)[s] / 4 < codes.Length
                && codes[..] == FreeBits(old(codes[..]), old(live), s)
    {
      hide Used, Encodes, Disjoint, Respectful, EndsAt, Bit, WithoutBit;
      if !mapped || address == None {
        return;
      }
      var i := address.value / wordSize;
      ghost var s, before := i, codes[..];
      FreeEncodes(before, live, numWords, s);
      ScanBits(before, live, numWords, s);
      OwnEnd(live, numWords, s);
      ClearCodeBit(i, 2);
      i := NextLow(i, live[s]);
      ClearCodeBit(i, 1);
      live := live - {s};
    }

    /** The scan of `free`: from behind word `i` to the first low bit, which is at `end`. */
    method NextLow(i: nat, ghost end: nat) returns (j: nat)
      requires i < end && end / 4 < codes.Length
      requires forall k | i < k <= end :: k / 4 < codes.Length && (Bit(codes[..], k, 1) <==> k == end)
      ensures j == end
    {
      j := i + 1;
      while codes[j / 4] & (1 << Shamt(j)) == 0
        invariant i < j <= end
        decreases end - j
      {
        assert !Bit(codes[..], j, 1);
        j := j + 1;
      }
      assert Bit(codes[..], j, 1);
    }

    /** The loop of `getBitmap` over a zeroed bitmap. */
    method MarkWords(bitmap: array<bv8>)
      requires Valid() && mapped && bitmap.Length == 2 + (numWords + 7) / 8 && bitmap != codes
      requires forall k: nat | k < 8 * ((numWords + 7) / 8) :: !BitmapBit(bitmap[2..], k)
      modifies bitmap
      ensures bitmap[..2] == old(bitmap[..2])
      ensures forall k: nat | k < 8 * ((numWords + 7) / 8) ::
                BitmapBit(bitmap[2..], k) <==> k < numWords && Used(live, k)
    {
      hide Used, Encodes, Disjoint, Respectful, CodeOf, BitmapBit;
      var inBlock: Option<bool> := None;
      for i := 0 to numWords
        invariant bitmap[..2] == old(bitmap[..2])
        invariant i > 0 ==> inBlock == Some(Used(live, i - 1))
        invariant forall k: nat | k < 8 * ((numWords + 7) / 8) :: BitmapBit(bitmap[2..], k) <==> k < i && Used(live, k)
      {
        var code := Code(i);
        CodeUse(live, numWords, i);
        if code != 0 {
          inBlock := Some(code != 1);
        }
        if inBlock.value {
          MarkUsed(bitmap, i);
        }
      }
    }

    /** One bit a word: set for the words of live blocks, clear for holes and padding. */
    method GetBitmap() returns (bitmap: array?<bv8>)
      requires Valid()
      ensures bitmap == null <==> !mapped
      ensures mapped ==>
                var len := (numWords + 7) / 8;
                bitmap.Length == 2 + len && fresh(bitmap)
                && bitmap[..2] == LengthBytes(len as bv16)
                && (forall i: nat | i < 8 * len :: BitmapBit(bitmap[2..], i) <==> i < numWords && Used(live, i))
                && forall j | 0 <= j < len :: ByteMarks(bitmap[2..][j], live, numWords, 8 * j)
    {
      hide Used, Encodes, Disjoint, Respectful, CodeOf, BitmapBit, ByteMarks, LengthBytes;
      if !mapped {
        return null;
      }
      var len := (numWords + 7) / 8;
      bitmap := NewBitmap(len);
      MarkWords(bitmap);
      MarksOfBits(bitmap[2..], live, numWords);
    }
  }

  lemma WithBitIs(codes: seq<bv8>, k: nat, m: bv8)
    requires k / 4 < |codes|
    ensures WithBit(codes, k, m) == codes[k / 4 := codes[k / 4] | (m << Shamt(k))]
  {
    hide Shamt;
  }

  lemma WithoutBitIs(codes: seq<bv8>, k: nat, m: bv8)
    requires k / 4 < |codes|
    ensures WithoutBit(codes, k, m) == codes[k / 4 := codes[k / 4] & !(m << Shamt(k))]
  {
    hide Shamt;
  }

  /** The two bytes in front of a bitmap. */
  function LengthBytes(len: bv16): (r: seq<bv8>)
    ensures |r| == 2
  {
    [(len & 0xff) as bv8, (len >> 8) as bv8]
  }

  /** They hold its length, the low byte first. */
  lemma LengthRead(len: bv16)
    ensures LengthBytes(len)[0] as bv16 | (LengthBytes(len)[1] as bv16 << 8) == len
  {
  }

  /** A zeroed bitmap behind the two bytes of its length. */
  method NewBitmap(len: nat) returns (bitmap: array<bv8>)
    requires len < 0x1_0000
    ensures fresh(bitmap) && bitmap.Length == 2 + len
    ensures bitmap[..2] == LengthBytes(len as bv16)
    ensures forall k: nat | k < 8 * len :: !BitmapBit(bitmap[2..], k)
  {
    bitmap := new bv8[2 + len](_ => 0);
    var bits := len as bv16;
    bitmap[0] := (bits & 0xff) as bv8;
    bitmap[1] := (bits >> 8) as bv8;
    EmptyBitmap(bitmap[2..]);
  }

  /** `p[i >> 3] |= 1 << (i & 7)`, where `p` is behind the two bytes of the length. */
  method MarkUsed(bitmap: array<bv8>, i: nat)
    requires 2 + i / 8 < bitmap.Length
    modifies bitmap
    ensures bitmap[..2] == old(bitmap[..2])
    ensures forall k: nat | 2 + k / 8 < bitmap.Length ::
              BitmapBit(bitmap[2..], k) <==> old(BitmapBit(bitmap[2..], k)) || k == i
  {
    hide BitmapBit, BitmapShift;
    ghost var was := bitmap[2..];
    bitmap[2 + i / 8] := bitmap[2 + i / 8] | (1 << BitmapShift(i));
    assert bitmap[2..] == was[i / 8 := was[i / 8] | (1 << BitmapShift(i))];
    forall k: nat | 2 + k / 8 < bitmap.Length
      ensures BitmapBit(bitmap[2..], k) <==> BitmapBit(was, k) || k == i
    {
      BitmapSet(was, i, k);
    }
  }

  /** The scan of `free` sees no end before the block's own, and sees that one. */
  lemma ScanBits(codes: seq<bv8>, live: Live, n: nat, s: nat)
    requires Disjoint(live, n) && Encodes(codes, live, n) && s in live
    ensures s < live[s] <= n && n / 4 < |codes|
    ensures forall k | s < k <= live[s] :: k / 4 < |codes| && (Bit(WithoutBit(codes, s, 2), k, 1) <==> k == live[s])
  {
    hide Bit, WithoutBit, EndsAt;
    OwnEnd(live, n, s);
    forall k | s < k <= live[s]
      ensures k / 4 < |codes| && (Bit(WithoutBit(codes, s, 2), k, 1) <==> k == live[s])
    {
      assert k / 4 <= n / 4;
      BitCleared(codes, s, 2, k, 1);
      EndSeen(live, s);
    }
  }

  lemma EndSeen(live: Live, s: nat)
    requires s in live
    ensures EndsAt(live, live[s])
  {
  }

  /** A code other than 0 settles whether a word is used; 0 repeats the word before. */
  lemma CodeUse(live: Live, n: nat, i: nat)
    requires Disjoint(live, n) && i < n
    ensures CodeOf(live, n, i) != 0 ==> (Used(live, i) <==> CodeOf(live, n, i) != 1)
    ensures CodeOf(live, n, i) == 0 ==> i > 0 && (Used(live, i) <==> Used(live, i - 1))
  {
    hide Used, High, Low;
    CodeMeaning(live, n, i);
  }

  // ---------- the bitmap ----------

  /** Position of word `i` in its byte: `i & 7`. */
  function BitmapShift(i: nat): (s: bv8)
    ensures s < 8
  {
    match i % 8
    case 0 => 0
    case 1 => 1
    case 2 => 2
    case 3 => 3
    case 4 => 4
    case 5 => 5
    case 6 => 6
    case _ => 7
  }

  predicate BitmapBit(bitmap: seq<bv8>, i: nat)
    requires i / 8 < |bitmap|
  {
    bitmap[i / 8] & (1 << BitmapShift(i)) != 0
  }

  /** A bitmap byte for the eight words from `w` on: the low bit is for `w`. */
  predicate ByteMarks(b: bv8, live: Live, n: nat, w: nat) {
    (b & 0x01 != 0 <==> w < n && Used(live, w))
    && (b & 0x02 != 0 <==> w + 1 < n && Used(live, w + 1))
    && (b & 0x04 != 0 <==> w + 2 < n && Used(live, w + 2))
    && (b & 0x08 != 0 <==> w + 3 < n && Used(live, w + 3))
    && (b & 0x10 != 0 <==> w + 4 < n && Used(live, w + 4))
    && (b & 0x20 != 0 <==> w + 5 < n && Used(live, w + 5))
    && (b & 0x40 != 0 <==> w + 6 < n && Used(live, w + 6))
    && (b & 0x80 != 0 <==> w + 7 < n && Used(live, w + 7))
  }

  lemma MarksOfBits(bitmap: seq<bv8>, live: Live, n: nat)
    requires forall i: nat | i < 8 * |bitmap| :: BitmapBit(bitmap, i) <==> i < n && Used(live, i)
    ensures forall j | 0 <= j < |bitmap| :: ByteMarks(bitmap[j], live, n, 8 * j)
  {
    hide BitmapBit, Used;
    forall j | 0 <= j < |bitmap|
      ensures ByteMarks(bitmap[j], live, n, 8 * j)
    {
      BitmapMasks(bitmap, j);
    }
  }

  lemma BitmapMasks(bitmap: seq<bv8>, j: nat)
    requires j < |bitmap|
    ensures BitmapBit(bitmap, 8 * j) == (bitmap[j] & 0x01 != 0)
    ensures BitmapBit(bitmap, 8 * j + 1) == (bitmap[j] & 0x02 != 0)
    ensures BitmapBit(bitmap, 8 * j + 2) == (bitmap[j] & 0x04 != 0)
    ensures BitmapBit(bitmap, 8 * j + 3) == (bitmap[j] & 0x08 != 0)
    ensures BitmapBit(bitmap, 8 * j + 4) == (bitmap[j] & 0x10 != 0)
    ensures BitmapBit(bitmap, 8 * j + 5) == (bitmap[j] & 0x20 != 0)
    ensures BitmapBit(bitmap, 8 * j + 6) == (bitmap[j] & 0x40 != 0)
    ensures BitmapBit(bitmap, 8 * j + 7) == (bitmap[j] & 0x80 != 0)
  {
  }

  lemma BitmapShiftInjective(i: nat, k: nat)
    ensures i / 8 == k / 8 && BitmapShift(i) == BitmapShift(k) ==> i == k
  {
  }

  lemma OneBitSet(b: bv8, s: bv8, t: bv8)
    requires s < 8 && t < 8
    ensures (b | (1 << s)) & (1 << t) != 0 <==> b & (1 << t) != 0 || s == t
  {
  }

  lemma BitmapSet(bitmap: seq<bv8>, i: nat, k: nat)
    requires i / 8 < |bitmap| && k / 8 < |bitmap|
    ensures BitmapBit(bitmap[i / 8 := bitmap[i / 8] | (1 << BitmapShift(i))], k) <==> BitmapBit(bitmap, k) || k == i
  {
    hide BitmapShift;
    OneBitSet(bitmap[i / 8], BitmapShift(i), BitmapShift(k));
    BitmapShiftInjective(i, k);
  }

  lemma EmptyBitmap(bitmap: seq<bv8>)
    requires forall i | 0 <= i < |bitmap| :: bitmap[i] == 0
    ensures forall k: nat | k < 8 * |bitmap| :: !BitmapBit(bitmap, k)
  {
    hide BitmapShift;
  }

  /** A range inside a listed hole is free. */
  lemma AnswerIsFree(live: Live, n: nat, i: nat, words: nat)
    requires words > 0 && Answers(i, words, Holes(live, n))
    ensures i + words <= n && Blocks.Free(live, i, i + words)
  {
    var hs := Holes(live, n);
    HolesSeparated(live, n);
    var h :| 0 <= h < |hs| && hs[h].start <= i && i + words <= hs[h].End();
    hide Holes, Used;
    forall w | i <= w < i + words
      ensures !Used(live, w)
    {
      assert InHole(hs, w);
      HolesCover(live, n, w);
    }
  }
}
