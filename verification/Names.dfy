/** Descriptor names: eight bytes, and the suffixes that give a descriptor its role. */
module Names {
  import opened Bytes

  /** The `char name[8]` of a descriptor. */
  type Name = s: seq<byte> | |s| == 8 witness [0, 0, 0, 0, 0, 0, 0, 0]

  /** The characters of `_START`. */
  const START: seq<byte> := [95, 83, 84, 65, 82, 84]
  /** The characters of `_END`. */
  const END: seq<byte> := [95, 69, 78, 68]

  /** The text of the name, up to the first NUL, ends in `_START`. */
  predicate IsStart(name: Name) {
    var n := CountTo(name, 0);
    n >= 6 && name[n - 6] == 95 && name[n - 5] == 83 && name[n - 4] == 84
    && name[n - 3] == 65 && name[n - 2] == 82 && name[n - 1] == 84
  }

  /** The text of the name ends in `_END`. */
  predicate IsEnd(name: Name) {
    var n := CountTo(name, 0);
    n >= 4 && name[n - 4] == 95 && name[n - 3] == 69 && name[n - 2] == 78 && name[n - 1] == 68
  }

  predicate IsDigit(b: byte) {
    48 <= b <= 57
  }

  /** `E`, a digit, `M`, a digit, NUL. */
  predicate IsMap(name: Name) {
    name[0] == 69 && IsDigit(name[1]) && name[2] == 77 && IsDigit(name[3]) && name[4] == 0
  }

  /** Zero-padding of a component into an eight-byte buffer. */
  function Pad(t: seq<byte>): Name
    requires |t| <= 8
  {
    t + Zeros(8 - |t|)
  }

  predicate Padded(name: Name) {
    forall i | CountTo(name, 0) <= i < 8 :: name[i] == 0
  }

  /** The name under which a descriptor is listed: without the `_START` of a directory. */
  function Label(name: Name): (r: seq<byte>)
    ensures |r| <= 8
  {
    var t := CString(name);
    if IsStart(name) then t[..|t| - 6] else t
  }

  /** The buffer that path lookup compares: the name with a `_START` suffix zeroed. */
  function Stripped(name: Name): Name {
    if IsStart(name)
    then var n := |CString(name)| - 6; name[..n] + Zeros(6) + name[n + 6..]
    else name
  }

  /** A path component: never empty, without NUL and without slash. */
  predicate IsComponent(c: seq<byte>) {
    c != [] && 0 !in c && SLASH !in c
  }

  /** Names the library can address: zero-padded, with a label that is a path component. */
  predicate Addressable(name: Name) {
    Padded(name) && IsComponent(Label(name))
  }

  lemma PadText(t: seq<byte>)
    requires |t| <= 8 && 0 !in t
    ensures CString(Pad(t)) == t
  {
    assert Pad(t)[..|t|] == t;
    CountToUnique(Pad(t), 0, |t|);
  }

  /** Comparing padded buffers is comparing labels. */
  lemma StrippedIsLabel(name: Name, c: seq<byte>)
    requires Padded(name) && |c| <= 8 && 0 !in c
    ensures Pad(c) == Stripped(name) <==> c == Label(name)
  {
    var t := CString(name);
    var l := Label(name);
    CountToStops(name, 0);
    assert forall b | b in l :: b in t;
    assert Stripped(name) == Pad(l);
    PadText(c);
    PadText(l);
  }

  /** The roles exclude each other. */
  lemma RolesDisjoint(name: Name)
    ensures !(IsStart(name) && IsEnd(name))
    ensures IsMap(name) ==> !IsStart(name) && !IsEnd(name)
  {
    if IsMap(name) {
      assert forall b | b in name[..4] :: b != 0;
      CountToUnique(name, 0, 4);
    }
  }

  /** A start marker ends in `_START`. */
  lemma StartByText(name: Name)
    ensures IsStart(name) <==> exists p: seq<byte> :: CString(name) == p + [95, 83, 84, 65, 82, 84]
  {
    var t, n := CString(name), CountTo(name, 0);
    if IsStart(name) {
      assert t == t[..n - 6] + [95, 83, 84, 65, 82, 84];
    }
    if p: seq<byte> :| t == p + [95, 83, 84, 65, 82, 84] {
      assert n == |p| + 6 && t[n - 6] == 95 && t[n - 5] == 83 && t[n - 4] == 84;
      assert t[n - 3] == 65 && t[n - 2] == 82 && t[n - 1] == 84;
    }
  }

  /** An end marker ends in `_END`. */
  lemma EndByText(name: Name)
    ensures IsEnd(name) <==> exists p: seq<byte> :: CString(name) == p + [95, 69, 78, 68]
  {
    var t, n := CString(name), CountTo(name, 0);
    if IsEnd(name) {
      assert t == t[..n - 4] + [95, 69, 78, 68];
    }
    if p: seq<byte> :| t == p + [95, 69, 78, 68] {
      assert n == |p| + 4 && t[n - 4] == 95 && t[n - 3] == 69 && t[n - 2] == 78 && t[n - 1] == 68;
    }
  }

  /** A map is named `E`, digit, `M`, digit, with all ten digits admitted. */
  lemma MapByText(name: Name)
    ensures var digits: seq<byte> := [48, 49, 50, 51, 52, 53, 54, 55, 56, 57];
            var t := CString(name);
            IsMap(name) <==> |t| == 4 && t[0] == 69 && t[1] in digits && t[2] == 77 && t[3] in digits
  {
    CountToStops(name, 0);
    if IsMap(name) {
      assert forall b | b in name[..4] :: b != 0;
      CountToUnique(name, 0, 4);
    }
  }

  /** What a padded text is listed as. */
  lemma LabelByText(t: seq<byte>)
    requires |t| <= 8 && 0 !in t
    ensures forall p: seq<byte> | t == p + [95, 83, 84, 65, 82, 84] :: Label(Pad(t)) == p
    ensures (forall p: seq<byte> :: t != p + [95, 83, 84, 65, 82, 84]) ==> Label(Pad(t)) == t
  {
    hide IsStart;
    PadText(t);
    StartByText(Pad(t));
  }

  /** A component followed by a marker, as `createDirectory` builds them. */
  lemma MarkerNames(c: seq<byte>)
    requires IsComponent(c) && |c| <= 2
    ensures IsStart(Pad(c + START)) && Addressable(Pad(c + START)) && Label(Pad(c + START)) == c
    ensures IsEnd(Pad(c + END))
    ensures CString(Pad(c + START)) == c + [95, 83, 84, 65, 82, 84] && CString(Pad(c + END)) == c + [95, 69, 78, 68]
  {
    PadText(c + START);
    PadText(c + END);
    assert (c + START)[|c|..] == START;
    assert (c + END)[|c|..] == END;
    assert (c + START)[..|c|] == c;
  }
}
