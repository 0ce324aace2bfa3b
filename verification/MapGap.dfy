/** A concrete WAD on which a create inside a map is accepted and makes two siblings equal. */
module MapGap {
  import opened Bytes
  import opened Names
  import opened Paths
  import opened Forest
  import opened Lookup
  import opened Growth
  import opened WadImage
  import opened FileSystem

  /** `A`, the name of the file beside the map. */
  const A: seq<byte> := [65]
  /** `E1M1`. */
  const E1M1: seq<byte> := [69, 49, 77, 49]

  function Plain(c: seq<byte>): Node
    requires |c| <= 8
  {
    File(Descriptor(0, 0, Pad(c)))
  }

  /** Lumps named by the digits from `k` to 9. */
  function Digits(k: nat): (f: seq<Node>)
    requires k <= 10
    ensures |f| == 10 - k
    decreases 10 - k
  {
    if k == 10 then [] else [Plain([48 + k])] + Digits(k + 1)
  }

  const MAP: Node := Map(Descriptor(0, 0, Pad(E1M1)), Digits(0))
  const TREE: seq<Node> := [Plain(A), MAP]
  const WAD: Image := Image([80, 87, 65, 68], [], TREE)
  /** `/E1M1/A`. */
  const PATH: seq<byte> := [SLASH] + E1M1 + [SLASH] + A

  lemma PlainIsGood(c: seq<byte>)
    requires |c| == 1 && 48 <= c[0] <= 65
    ensures WellFormedNode(Plain(c)) && Plain(c).Label() == c && IsFileName(Pad(c))
  {
    PadText(c);
    CountToUnique(Pad(c), 0, 1);
  }

  lemma {:induction false} DigitsAreGood(k: nat)
    requires k <= 10
    ensures WellFormed(Digits(k)) && Unique(Digits(k))
    ensures forall i | 0 <= i < 10 - k :: Digits(k)[i].File? && Digits(k)[i].Label() == [48 + k + i]
    ensures forall i | 0 <= i < |Flatten(Digits(k))| :: SoundOne(Flatten(Digits(k))[i], 12)
    decreases 10 - k
  {
    hide WellFormedNode, Pad, Names.Label, IsFileName;
    if k < 10 {
      PlainIsGood([48 + k]);
      DigitsAreGood(k + 1);
      FirstIs(Digits(k + 1), [48 + k], 9 - k);
    }
  }

  lemma PathParts()
    ensures Parse(PATH) == Some([E1M1, A])
  {
    hide Components;
    SlashSeparates([SLASH] + E1M1, A);
    assert [] + [SLASH] + E1M1 == [SLASH] + E1M1;
    SlashSeparates([], E1M1);
    NoComponents();
    OneComponent(E1M1);
    OneComponent(A);
    assert [] + [E1M1] + [A] == [E1M1, A];
    CountToUnique(PATH, 0, |PATH|);
    assert PATH[..|PATH|] == PATH;
  }

  lemma MapIsGood()
    ensures WellFormedNode(MAP) && MAP.Label() == E1M1 && Unique(MAP.kids) && First(MAP.kids, A) == None
  {
    hide WellFormed, Unique, Flatten, First;
    DigitsAreGood(0);
    MapName();
    FirstIs(Digits(0), A, 10);
  }

  lemma MapName()
    ensures IsMap(Pad(E1M1)) && Addressable(Pad(E1M1)) && Names.Label(Pad(E1M1)) == E1M1
  {
    PadText(E1M1);
    CountToUnique(Pad(E1M1), 0, 4);
    RolesDisjoint(Pad(E1M1));
  }

  lemma PairLookup(m: Node, n: Node)
    requires m.Label() != n.Label()
    ensures First([m, n], m.Label()) == Some(0) && First([m, n], n.Label()) == Some(1)
    ensures Flatten([m, n]) == Flat(m) + Flat(n)
  {
    hide WellFormedNode, Flat;
    assert [m, n][1..] == [n];
    FirstIs([m, n], m.Label(), 0);
    FirstIs([m, n], n.Label(), 1);
    FlattenOne(n);
  }

  lemma PairIsGood(m: Node, n: Node)
    requires m.Label() != n.Label() && WellFormedNode(m) && WellFormedNode(n)
    requires m.File? && !n.File? && Unique(n.kids)
    ensures WellFormed([m, n]) && Unique([m, n])
  {
    hide WellFormedNode;
    assert [m, n][1..] == [n] && [n][1..] == [];
    assert WellFormed([n]);
    FirstIs([n], m.Label(), 1);
    assert First([], n.Label()) == None;
    assert Unique([n]);
  }

  lemma TreeIsGood()
    ensures Good(WAD) && Unique(TREE)
  {
    hide WellFormed, WellFormedNode, Unique, Flatten, First, Names.Label, IsMap, IsFileName;
    MapIsGood();
    PlainIsGood(A);
    DigitsAreGood(0);
    FlattenDigits();
    PairLookup(Plain(A), MAP);
    PairIsGood(Plain(A), MAP);
  }

  lemma FlattenDigits()
    ensures |Flatten(Digits(0))| == 10
  {
    DigitsAreGood(0);
    FlattenFiles(Digits(0));
  }

  /**
   * `createFile("/E1M1/A")` on a well-formed WAD with unique names: accepted although the
   * parent is a map, and afterwards the root holds two files named `A`.
   */
  lemma CreateInsideMapAccepted()
    ensures Good(WAD) && Unique(WAD.tree) && IsMapAt(WAD.tree, [E1M1])
    ensures Create(WAD, PATH, PlainFile).tree == TREE + [Plain(A)]
    ensures !Unique(Create(WAD, PATH, PlainFile).tree)
  {
    hide WellFormed, WellFormedNode, Unique, Flatten, First, Names.Label, IsStart, IsEnd, IsMap, Parse, Digits, Good;
    TreeIsGood();
    MapIsGood();
    PathParts();
    PlainIsGood(A);
    PairLookup(Plain(A), MAP);
    var cs := [E1M1, A];
    assert cs[1..] == [A] && [E1M1][1..] == [];
    assert Find(In(MAP), []) == Some(In(MAP));
    assert Home(TREE, cs) == Some([]);
    UniqueAppend(TREE, Plain(A));
  }
}
