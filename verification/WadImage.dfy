/** A WAD as a value: its bytes on disk, and what creating and writing do to it. */
module WadImage {
  import opened Bytes
  import opened Names
  import opened Forest
  import opened Layout

  /** The magic, the lump data after the 12-byte header, and the tree. */
  datatype Image = Image(magic: seq<byte>, body: seq<byte>, tree: seq<Node>) {
    /** File offset of the descriptor list, which follows the lump data. */
    function DOffset(): nat {
      12 + |body|
    }
  }

  // ---------- descriptors on disk ----------

  function EncodeOne(d: Descriptor): (r: seq<byte>)
    ensures |r| == 16
  {
    Word(d.offset) + Word(d.size) + d.name
  }

  function Encode(ds: seq<Descriptor>): (r: seq<byte>)
    ensures |r| == 16 * |ds|
  {
    if ds == [] then [] else EncodeOne(ds[0]) + Encode(ds[1..])
  }

  function DecodeOne(b: seq<byte>): Descriptor
    requires |b| == 16
  {
    Descriptor(WordValue(b[..4]), WordValue(b[4..8]), b[8..])
  }

  function Decode(b: seq<byte>): seq<Descriptor> {
    if |b| < 16 then [] else [DecodeOne(b[..16])] + Decode(b[16..])
  }

  lemma {:induction false} EncodeConcat(a: seq<Descriptor>, b: seq<Descriptor>)
    ensures Encode(a + b) == Encode(a) + Encode(b)
    decreases |a|
  {
    if a == [] {
      assert a + b == b;
    } else {
      assert (a + b)[1..] == a[1..] + b;
      EncodeConcat(a[1..], b);
    }
  }

  predicate IsFileName(name: Name) {
    !IsStart(name) && !IsMap(name) && !IsEnd(name)
  }

  /** The fields fit their 32 bits, and a non-empty lump lies between the header and `limit`. */
  predicate SoundOne(d: Descriptor, limit: nat) {
    d.offset < TWO32 && d.size < TWO32 &&
    (IsFileName(d.name) && d.size > 0 ==> 12 <= d.offset && d.offset + d.size <= limit)
  }

  predicate Sound(ds: seq<Descriptor>, limit: nat) {
    forall i | 0 <= i < |ds| :: SoundOne(ds[i], limit)
  }

  lemma {:induction false} DecodeEncode(ds: seq<Descriptor>, limit: nat)
    requires Sound(ds, limit)
    ensures Decode(Encode(ds)) == ds
    decreases |ds|
  {
    if ds != [] {
      var d := ds[0];
      var b := EncodeOne(d);
      assert Encode(ds)[..16] == b && Encode(ds)[16..] == Encode(ds[1..]);
      assert b[..4] == Word(d.offset) && b[4..8] == Word(d.size) && b[8..] == d.name;
      WordRoundTrip(d.offset);
      WordRoundTrip(d.size);
      DecodeEncode(ds[1..], limit);
    }
  }

  // ---------- well-formed images and their files ----------

  predicate Small(img: Image) {
    img.DOffset() + 16 * |Flatten(img.tree)| < 0x8000_0000
  }

  predicate Good(img: Image) {
    |img.magic| == 4 && WellFormed(img.tree) && Sound(Flatten(img.tree), img.DOffset()) && Small(img)
  }

  /** `file` begins with magic, descriptor count, list offset and lump data. */
  predicate Front(file: seq<byte>, magic: seq<byte>, count: nat, doffset: nat, body: seq<byte>) {
    |magic| == 4 && Has(file, 0, magic) && Has(file, 4, Word(count)) && Has(file, 8, Word(doffset))
    && Has(file, 12, body)
  }

  /** `file` holds header, lump data and descriptor list; bytes after the list are left over. */
  predicate Holds(file: seq<byte>, magic: seq<byte>, body: seq<byte>, ds: seq<Descriptor>) {
    Front(file, magic, |ds|, 12 + |body|, body) && Has(file, 12 + |body|, Encode(ds))
  }

  predicate OnDisk(file: seq<byte>, img: Image) {
    Holds(file, img.magic, img.body, Flatten(img.tree))
  }

  /** The bytes of a buffer after `read` went to its front. */
  function Overlay(read: seq<byte>, buffer: seq<byte>): seq<byte> {
    if |read| <= |buffer| then read + buffer[|read|..] else read
  }

  /**
   * The three things `loadWad` keeps of any file: magic, list offset and descriptor list.
   * `memory` is what the header variable held before; the list starts out zeroed.
   */
  function Load(file: seq<byte>, memory: seq<byte>): (seq<byte>, nat, seq<Descriptor>)
    requires |memory| == 12
  {
    var header := Overlay(PRead(file, 12, 0), memory);
    var dcount, doffset := WordValue(header[4..8]), WordValue(header[8..12]);
    (header[..4], doffset, Decode(Overlay(PRead(file, 16 * dcount, doffset), Zeros(16 * dcount))))
  }

  /** The bytes that a read of 12 bytes at the front leaves in the header. */
  predicate IsHeader(header: seq<byte>, file: seq<byte>, memory: seq<byte>)
    requires |memory| == 12
  {
    |header| == 12 && forall i | 0 <= i < 12 :: header[i] == if i < |file| then file[i] else memory[i]
  }

  /** `n` bytes of a file, zeros behind its end. */
  function Part(file: seq<byte>, at: nat, n: nat): (r: seq<byte>)
    ensures |r| == n
  {
    seq(n, i requires 0 <= i < n => if at + i < |file| then file[at + i] else 0)
  }

  /**
   * Where everything lies in any file, also one that ends early: magic, count and offset in
   * the header, then offset, size and name of each descriptor.
   */
  lemma LoadBytes(file: seq<byte>, memory: seq<byte>, header: seq<byte>, k: nat)
    requires |memory| == 12 && IsHeader(header, file, memory)
    ensures var (magic, doffset, ds) := Load(file, memory);
            magic == header[..4] && |ds| == WordValue(header[4..8]) && doffset == WordValue(header[8..12])
            && (k < |ds| ==>
                  var at := doffset + 16 * k;
                  ds[k].offset == WordValue(Part(file, at, 4)) && ds[k].size == WordValue(Part(file, at + 4, 4))
                  && ds[k].name == Part(file, at + 8, 8))
  {
    hide WordValue, Overlay, PRead, Part, Decode;
    HeaderIs(header, file, memory);
    var count, doffset := WordValue(header[4..8]), WordValue(header[8..12]);
    ListIs(file, count, doffset);
    DecodeAt(Part(file, doffset, 16 * count), count, k);
    if k < count {
      var at := doffset + 16 * k;
      PartOf(file, doffset, 16 * count, 16 * k, 16);
      PartOf(file, at, 16, 0, 4);
      PartOf(file, at, 16, 4, 4);
      PartOf(file, at, 16, 8, 8);
    }
  }

  lemma HeaderIs(header: seq<byte>, file: seq<byte>, memory: seq<byte>)
    requires |memory| == 12 && IsHeader(header, file, memory)
    ensures Overlay(PRead(file, 12, 0), memory) == header
  {
  }

  lemma ListIs(file: seq<byte>, count: nat, at: nat)
    ensures Overlay(PRead(file, 16 * count, at), Zeros(16 * count)) == Part(file, at, 16 * count)
  {
    OverlayIs(file, 16 * count, at);
  }

  lemma OverlayIs(file: seq<byte>, n: nat, at: nat)
    ensures Overlay(PRead(file, n, at), Zeros(n)) == Part(file, at, n)
  {
  }

  lemma PartOf(file: seq<byte>, at: nat, n: nat, i: nat, m: nat)
    requires i + m <= n
    ensures Part(file, at, n)[i..i + m] == Part(file, at + i, m)
  {
  }

  lemma {:induction false} DecodeAt(b: seq<byte>, count: nat, k: nat)
    requires |b| == 16 * count
    ensures |Decode(b)| == count
    ensures k < count ==> Decode(b)[k] == DecodeOne(b[16 * k..16 * k + 16])
    decreases count
  {
    hide DecodeOne;
    if count > 0 {
      DecodeAt(b[16..], count - 1, if k == 0 then 0 else k - 1);
      if 0 < k < count {
        assert b[16..][16 * (k - 1)..16 * (k - 1) + 16] == b[16 * k..16 * k + 16];
      }
    }
  }

  /** Loading a file that holds an image gives back the image's header and list. */
  lemma LoadReads(file: seq<byte>, memory: seq<byte>, img: Image)
    requires |memory| == 12 && Good(img) && OnDisk(file, img)
    ensures Load(file, memory) == (img.magic, img.DOffset(), Flatten(img.tree))
  {
    hide Word, WordValue, Encode, Decode, PRead, Overlay, WellFormed, Flatten, SoundOne;
    var ds := Flatten(img.tree);
    HeaderReads(file, memory, img.magic, |ds|, img.DOffset());
    ListReads(file, ds, img.DOffset(), img.DOffset());
    WordRoundTrip(|ds|);
    WordRoundTrip(img.DOffset());
  }

  lemma HeaderReads(file: seq<byte>, memory: seq<byte>, magic: seq<byte>, count: nat, doffset: nat)
    requires |memory| == 12 && |magic| == 4
    requires Has(file, 0, magic) && Has(file, 4, Word(count)) && Has(file, 8, Word(doffset))
    ensures var header := Overlay(PRead(file, 12, 0), memory);
            |header| == 12 && header[..4] == magic && header[4..8] == Word(count) && header[8..12] == Word(doffset)
  {
    hide Word;
    var header := Overlay(PRead(file, 12, 0), memory);
    assert header == file[0..12];
    assert header[..4] == file[0..4] && header[4..8] == file[4..8] && header[8..12] == file[8..12];
  }

  lemma ListReads(file: seq<byte>, ds: seq<Descriptor>, at: nat, limit: nat)
    requires Sound(ds, limit) && Has(file, at, Encode(ds))
    ensures Decode(Overlay(PRead(file, 16 * |ds|, at), Zeros(16 * |ds|))) == ds
  {
    hide Encode, Decode, SoundOne, Overlay, PRead;
    DecodeEncode(ds, limit);
    ReadBack(file, Encode(ds), at);
  }

  lemma ReadBack(file: seq<byte>, data: seq<byte>, at: nat)
    requires Has(file, at, data)
    ensures Overlay(PRead(file, |data|, at), Zeros(|data|)) == data
  {
  }

  // ---------- rewriting the file in place ----------

  /** A write leaves what lies entirely before or after it. */
  lemma PWriteFrame(file: seq<byte>, data: seq<byte>, at: nat, i: nat, xs: seq<byte>)
    requires Has(file, i, xs) && (i + |xs| <= at || at + |data| <= i)
    ensures Has(PWrite(file, data, at), i, xs)
  {
    var r := PWrite(file, data, at);
    assert forall j | i <= j < i + |xs| :: r[j] == file[j];
    assert i + |xs| <= |r|;
  }

  /** What starts before a write keeps its part before the write; the data follows. */
  lemma PWriteJoin(file: seq<byte>, data: seq<byte>, at: nat, i: nat, xs: seq<byte>)
    requires i + |xs| == at && Has(file, i, xs)
    ensures Has(PWrite(file, data, at), i, xs + data)
  {
    var r := PWrite(file, data, at);
    PWriteFrame(file, data, at, i, xs);
    assert data == [] || r[at..at + |data|] == data;
    assert r[i..i + |xs + data|] == r[i..at] + r[at..at + |data|];
  }

  lemma FrontFrame(file: seq<byte>, magic: seq<byte>, count: nat, doffset: nat, body: seq<byte>,
                   data: seq<byte>, at: nat)
    requires Front(file, magic, count, doffset, body) && 12 + |body| <= at
    ensures Front(PWrite(file, data, at), magic, count, doffset, body)
  {
    PWriteFrame(file, data, at, 0, magic);
    PWriteFrame(file, data, at, 4, Word(count));
    PWriteFrame(file, data, at, 8, Word(doffset));
    PWriteFrame(file, data, at, 12, body);
  }

  lemma CountWritten(file: seq<byte>, magic: seq<byte>, count: nat, doffset: nat, body: seq<byte>, count': nat)
    requires Front(file, magic, count, doffset, body)
    ensures Front(PWrite(file, Word(count'), 4), magic, count', doffset, body)
  {
    PWriteFrame(file, Word(count'), 4, 0, magic);
    PWriteFrame(file, Word(count'), 4, 8, Word(doffset));
    PWriteFrame(file, Word(count'), 4, 12, body);
  }

  lemma OffsetWritten(file: seq<byte>, magic: seq<byte>, count: nat, doffset: nat, body: seq<byte>, doffset': nat)
    requires Front(file, magic, count, doffset, body)
    ensures Front(PWrite(file, Word(doffset'), 8), magic, count, doffset', body)
  {
    PWriteFrame(file, Word(doffset'), 8, 0, magic);
    PWriteFrame(file, Word(doffset'), 8, 4, Word(count));
    PWriteFrame(file, Word(doffset'), 8, 12, body);
  }

  lemma DataAppended(file: seq<byte>, magic: seq<byte>, count: nat, doffset: nat, body: seq<byte>, data: seq<byte>)
    requires Front(file, magic, count, doffset, body)
    ensures Front(PWrite(file, data, 12 + |body|), magic, count, doffset, body + data)
  {
    FrontFrame(file, magic, count, doffset, body, data, 12 + |body|);
    PWriteJoin(file, data, 12 + |body|, 12, body);
  }

  /** Inserting rewrites the count and the tail of the list; the file then holds the new list. */
  lemma HoldsAfterInsert(file: seq<byte>, magic: seq<byte>, body: seq<byte>, ds: seq<Descriptor>,
                         i: nat, xs: seq<Descriptor>)
    requires Holds(file, magic, body, ds) && i <= |ds|
    ensures var ds', doffset := Insert(ds, i, xs), 12 + |body|;
            Holds(PWrite(PWrite(file, Word(|ds'|), 4), Encode(ds'[i..]), doffset + 16 * i), magic, body, ds')
  {
    hide Encode, PWrite, Word, Front;
    var ds', doffset := Insert(ds, i, xs), 12 + |body|;
    var mid := PWrite(file, Word(|ds'|), 4);
    assert ds == ds[..i] + ds[i..] && ds' == ds[..i] + ds'[i..];
    EncodeConcat(ds[..i], ds[i..]);
    EncodeConcat(ds[..i], ds'[i..]);
    HasConcat(file, doffset, Encode(ds[..i]), Encode(ds[i..]));
    PWriteFrame(file, Word(|ds'|), 4, doffset, Encode(ds[..i]));
    CountWritten(file, magic, |ds|, doffset, body, |ds'|);
    FrontFrame(mid, magic, |ds'|, doffset, body, Encode(ds'[i..]), doffset + 16 * i);
    PWriteJoin(mid, Encode(ds'[i..]), doffset + 16 * i, doffset, Encode(ds[..i]));
  }

  /**
   * Writing data overwrites the old list and puts the new list after the data; nothing in
   * front of the old list but the offset word changes.
   */
  lemma HoldsAfterWrite(file: seq<byte>, magic: seq<byte>, body: seq<byte>, ds: seq<Descriptor>,
                        buffer: seq<byte>, ds': seq<Descriptor>)
    requires Holds(file, magic, body, ds) && |ds'| == |ds|
    ensures var doffset := 12 + |body| + |buffer|;
            Holds(PWrite(PWrite(PWrite(file, Word(doffset), 8), buffer, doffset - |buffer|), Encode(ds'), doffset),
                  magic, body + buffer, ds')
  {
    hide Encode, PWrite, Word, Front;
    var doffset := 12 + |body| + |buffer|;
    var a := PWrite(file, Word(doffset), 8);
    OffsetWritten(file, magic, |ds|, 12 + |body|, body, doffset);
    var b := PWrite(a, buffer, doffset - |buffer|);
    DataAppended(a, magic, |ds|, doffset, body, buffer);
    FrontFrame(b, magic, |ds|, doffset, body + buffer, Encode(ds'), doffset);
    ListWritten(b, Encode(ds'), doffset);
  }

  /** Data written no further than the end of the file can be read back. */
  lemma ListWritten(file: seq<byte>, data: seq<byte>, at: nat)
    requires at <= |file|
    ensures Has(PWrite(file, data, at), at, data)
  {
    PWriteJoin(file, data, at, at, []);
    assert [] + data == data;
  }
}
