/**
 * The WAD as a file system: what a path reads as, and what every path reads as after a
 * create, a write, or a run of them.
 */
module FileSystem {
  import opened Bytes
  import opened Names
  import opened Paths
  import opened Forest
  import opened Lookup
  import opened Growth
  import opened Layout
  import opened WadImage

  datatype Kind = PlainFile | Directory

  /** What a caller sees at a path. */
  datatype Entry = Listing(names: seq<seq<byte>>) | Contents(bytes: seq<byte>)

  /** The bytes a file descriptor stands for. */
  function Lump(body: seq<byte>, d: Descriptor): seq<byte> {
    if 12 <= d.offset && d.offset + d.size <= 12 + |body| then body[d.offset - 12..d.offset - 12 + d.size] else []
  }

  function EntryOf(body: seq<byte>, item: Item): Entry {
    match item
    case Folder(names) => Listing(names)
    case Content(d) => Contents(Lump(body, d))
  }

  function View(img: Image, cs: Path): Option<Entry> {
    match Show(img.tree, cs)
    case None => None
    case Some(item) => Some(EntryOf(img.body, item))
  }

  /** Files found by path are sound, and their lumps have their full size. */
  lemma FoundIsSound(img: Image, cs: Path)
    requires Good(img) && IsFileAt(img.tree, cs)
    ensures var d := Find(Top(img.tree), cs).value.node.d;
            SoundOne(d, img.DOffset()) && IsFileName(d.name) && |Lump(img.body, d)| == d.size
    ensures View(img, cs) == Some(Contents(Lump(img.body, Find(Top(img.tree), cs).value.node.d)))
    ensures var ds, p := Flatten(img.tree), Spot(Top(img.tree), cs);
            p < |ds| && ds[p] == Find(Top(img.tree), cs).value.node.d
  {
    var ds := Flatten(img.tree);
    DenotesFind(ds, Top(img.tree), Root, cs);
    var p := Spot(Top(img.tree), cs);
    assert ds[p] == ds[p..p + 1][0];
  }

  // ---------- create ----------

  /** The node a create makes, unless the component cannot name one. */
  function MakeNode(kind: Kind, c: seq<byte>): Option<Node>
    requires |c| <= 8
  {
    match kind
    case Directory =>
      if |c| > 2 then None
      else Some(Dir(Descriptor(0, 0, Pad(c + START)), [], Descriptor(0, 0, Pad(c + END))))
    case PlainFile =>
      if !IsFileName(Pad(c)) then None else Some(File(Descriptor(0, 0, Pad(c))))
  }

  lemma MakeNodeIsGood(kind: Kind, c: seq<byte>)
    requires IsComponent(c) && |c| <= 8 && MakeNode(kind, c).Some?
    ensures var n := MakeNode(kind, c).value;
            WellFormedNode(n) && n.Kids() == [] && n.Label() == c
  {
    match kind
    case Directory => MarkerNames(c);
    case PlainFile => PadText(c);
  }

  datatype Plan = Refused | Planned(home: Path, node: Node)

  /** What `createFile` and `createDirectory` decide for a path. */
  function CreatePlan(tree: seq<Node>, path: seq<byte>, kind: Kind): (r: Plan)
    ensures r.Planned? ==> IsHome(tree, r.home)
  {
    match Parse(path)
    case None => Refused
    case Some(cs) =>
      match Home(tree, cs)
      case None => Refused
      case Some(h) =>
        match MakeNode(kind, Last(cs))
        case None => Refused
        case Some(n) => Planned(h, n)
  }

  function Create(img: Image, path: seq<byte>, kind: Kind): Image {
    match CreatePlan(img.tree, path, kind)
    case Refused => img
    case Planned(h, n) => img.(tree := AppendAt(img.tree, h, n))
  }

  /** The node of a plan is named by the last component and has no children. */
  lemma PlanNode(tree: seq<Node>, path: seq<byte>, kind: Kind)
    requires CreatePlan(tree, path, kind).Planned?
    ensures Parse(path).Some? && Parse(path).value != []
    ensures var n := CreatePlan(tree, path, kind).node;
            WellFormedNode(n) && n.Kids() == [] && n.Label() == Last(Parse(path).value)
  {
    CountToStops(path, 0);
    ComponentsAreComponents(CString(path));
    MakeNodeIsGood(kind, Last(Parse(path).value));
  }

  /**
   * A create changes exactly two paths: the receiving directory lists one more name, and
   * that name, if it was free there, now denotes an empty file or an empty directory.
   */
  lemma CreateView(img: Image, path: seq<byte>, kind: Kind, q: Path)
    ensures View(Create(img, path, kind), q) ==
            match CreatePlan(img.tree, path, kind)
            case Refused => View(img, q)
            case Planned(h, n) =>
              if q == h then Some(Listing(HomeListing(img.tree, h) + [Last(Parse(path).value)]))
              else if q == h + [Last(Parse(path).value)] && View(img, q) == None
              then Some(if kind == PlainFile then Contents([]) else Listing([]))
              else View(img, q)
  {
    match CreatePlan(img.tree, path, kind)
    case Refused =>
    case Planned(h, n) =>
      PlanNode(img.tree, path, kind);
      ShowAfterAppend(img.tree, h, n, q);
  }

  /** An accepted create keeps the image well formed while it fits; the lump data stays. */
  lemma CreateGood(img: Image, path: seq<byte>, kind: Kind)
    requires Good(img) && Small(Create(img, path, kind))
    ensures Good(Create(img, path, kind)) && Create(img, path, kind).body == img.body
  {
    hide Flatten, Flat, MakeNode, Home, WellFormedNode, AppendAt;
    match CreatePlan(img.tree, path, kind)
    case Refused =>
    case Planned(h, n) =>
      PlanNode(img.tree, path, kind);
      WellFormedAppend(img.tree, h, n);
      AppendIsInsert(img.tree, h, n);
      NewIsSound(n, kind, Last(Parse(path).value));
      SoundInsert(Flatten(img.tree), EndPos(img.tree, h), Flat(n), img.DOffset());
  }

  lemma NewIsSound(n: Node, kind: Kind, c: seq<byte>)
    requires |c| <= 8 && MakeNode(kind, c) == Some(n)
    ensures Sound(Flat(n), 12)
  {
    assert Flatten([]) == [];
  }

  lemma SoundInsert(ds: seq<Descriptor>, i: nat, xs: seq<Descriptor>, limit: nat)
    requires Sound(ds, limit) && Sound(xs, 12) && i <= |ds|
    ensures Sound(Insert(ds, i, xs), limit)
  {
  }

  /** `cs` denotes the root or a `_START` directory. */
  predicate IsDirectoryAt(tree: seq<Node>, cs: Path) {
    match Find(Top(tree), cs)
    case None => false
    case Some(o) => o.Top? || o.node.Dir?
  }

  predicate IsMapAt(tree: seq<Node>, cs: Path) {
    match Find(Top(tree), cs)
    case None => false
    case Some(o) => o.In? && o.node.Map?
  }

  /**
   * `c` can name a new node of this kind: two characters for a directory; for a file eight, but
   * neither a marker nor the name of a map.
   */
  predicate Usable(kind: Kind, c: seq<byte>) {
    match kind
    case Directory => |c| <= 2
    case PlainFile =>
      |c| <= 8
      && !(|c| >= 6 && c[|c| - 6..] == [95, 83, 84, 65, 82, 84])
      && !(|c| >= 4 && c[|c| - 4..] == [95, 69, 78, 68])
      && !(|c| == 4 && c[0] == 69 && 48 <= c[1] <= 57 && c[2] == 77 && 48 <= c[3] <= 57)
  }

  /** A node is made exactly for the usable components, and with these descriptors. */
  lemma MakeNodeIff(kind: Kind, c: seq<byte>)
    requires IsComponent(c) && |c| <= 8
    ensures MakeNode(kind, c).Some? <==> Usable(kind, c)
    ensures MakeNode(kind, c).Some? ==>
              Flat(MakeNode(kind, c).value) ==
              match kind
              case Directory =>
                [Descriptor(0, 0, Pad(c + [95, 83, 84, 65, 82, 84])), Descriptor(0, 0, Pad(c + [95, 69, 78, 68]))]
              case PlainFile => [Descriptor(0, 0, Pad(c))]
  {
    hide IsStart, IsEnd, IsMap, Pad, CString;
    PadText(c);
    StartByText(Pad(c));
    EndByText(Pad(c));
    MapByText(Pad(c));
    assert |c| >= 6 ==> c == c[..|c| - 6] + c[|c| - 6..];
    assert |c| >= 4 ==> c == c[..|c| - 4] + c[|c| - 4..];
    assert Flatten([]) == [];
  }

  /** The last component of a path makes a node exactly when it is usable. */
  lemma UsableMakes(path: seq<byte>, kind: Kind)
    requires Parse(path).Some? && Parse(path).value != []
    ensures var c := Last(Parse(path).value); Usable(kind, c) <==> |c| <= 8 && MakeNode(kind, c).Some?
  {
    hide Usable, MakeNode, Components;
    CountToStops(path, 0);
    ComponentsAreComponents(CString(path));
    var c := Last(Parse(path).value);
    assert IsComponent(c);
    UsableShort(kind, c);
    if |c| <= 8 {
      MakeNodeIff(kind, c);
    }
  }

  lemma UsableShort(kind: Kind, c: seq<byte>)
    ensures Usable(kind, c) ==> |c| <= 8
  {
  }

  /**
   * Under a root or directory a create succeeds exactly when the name is usable and the
   * path denotes nothing yet; the path then denotes the new, empty node.
   */
  lemma CreateUnderDirectory(img: Image, path: seq<byte>, kind: Kind)
    requires Good(img) && Parse(path).Some? && Parse(path).value != []
    requires IsDirectoryAt(img.tree, Parent(Parse(path).value))
    ensures var cs := Parse(path).value;
            if View(img, cs) == None && Usable(kind, Last(cs))
            then CreatePlan(img.tree, path, kind).Planned? && CreatePlan(img.tree, path, kind).home == Parent(cs)
                 && View(Create(img, path, kind), cs) == Some(if kind == PlainFile then Contents([]) else Listing([]))
            else CreatePlan(img.tree, path, kind) == Refused && Create(img, path, kind) == img
  {
    hide Home, Find, First, WellFormed, Flatten, MakeNode, EndsWithMap, Components, Sound, HomeListing, Usable;
    var cs := Parse(path).value;
    UsableMakes(path, kind);
    HomeExact(img.tree, cs);
    ShowLast(img.tree, cs);
    CreateView(img, path, kind, cs);
    assert cs == Parent(cs) + [Last(cs)] && cs != Parent(cs);
  }

  /** A file is no parent, and neither is a path that denotes nothing; nor is the root a name. */
  lemma CreateElsewhere(img: Image, path: seq<byte>, kind: Kind)
    requires Good(img)
    requires Parse(path).Some? && Parse(path).value != [] ==>
               var p := Parent(Parse(path).value);
               !IsDirectoryAt(img.tree, p) && !IsMapAt(img.tree, p)
    ensures CreatePlan(img.tree, path, kind) == Refused && Create(img, path, kind) == img
  {
    hide First, Find, Flatten, MakeNode, EndsWithMap, WellFormed, Home, Components, Sound;
    if Parse(path).Some? && Parse(path).value != [] {
      HomeExact(img.tree, Parse(path).value);
    }
  }

  /**
   * The library's refusal of creates inside maps has one gap, and exactly this one: under a
   * map that is the last of its siblings a usable name that is free in the map is accepted.
   * The path asked for still denotes nothing; the directory around the map lists the name,
   * and sibling names stay unique exactly when the name was free there.
   */
  lemma CreateUnderLastMap(img: Image, path: seq<byte>, kind: Kind)
    requires Good(img) && Parse(path).Some? && Parse(path).value != []
    requires IsMapAt(img.tree, Parent(Parse(path).value))
    ensures var cs := Parse(path).value;
            Create(img, path, kind) != img <==>
              EndsWithMap(img.tree, Parent(cs)) && View(img, cs) == None && Usable(kind, Last(cs))
    ensures var cs := Parse(path).value;
            View(Create(img, path, kind), cs) == View(img, cs)
    ensures var cs := Parse(path).value;
            Create(img, path, kind) != img ==>
              |cs| >= 2
              && var around := Parent(Parent(cs));
              IsHome(img.tree, around)
              && View(Create(img, path, kind), around) == Some(Listing(HomeListing(img.tree, around) + [Last(cs)]))
              && (Unique(Create(img, path, kind).tree) <==>
                    Unique(img.tree) && View(img, around + [Last(cs)]) == None)
  {
    hide Unique, First, WellFormed, MakeNode, Components, HomeListing, Sound, Usable;
    var cs := Parse(path).value;
    UsableMakes(path, kind);
    HomeExact(img.tree, cs);
    ShowLast(img.tree, cs);
    match CreatePlan(img.tree, path, kind)
    case Refused =>
    case Planned(h, n) =>
      PlanNode(img.tree, path, kind);
      CreateView(img, path, kind, cs);
      CreateView(img, path, kind, h);
      CreateUnique(img, path, kind);
      AppendIsInsert(img.tree, h, n);
      assert |h| == |cs| - 2;
  }

  /** The last component is free below its parent exactly when the path denotes nothing. */
  lemma {:induction false} ShowLast(f: seq<Node>, cs: Path)
    requires cs != []
    ensures match Find(Top(f), Parent(cs))
            case None => Show(f, cs) == None
            case Some(o) => Show(f, cs) == None <==> First(o.Kids(), Last(cs)) == None
    decreases |cs|
  {
    FindLast(Top(f), cs);
  }

  lemma {:induction false} FindLast(o: Owner, cs: Path)
    requires cs != []
    ensures Find(o, cs) == match Find(o, Parent(cs))
                           case None => None
                           case Some(p) => Find(p, [Last(cs)])
    decreases |cs|
  {
    if |cs| == 1 {
      assert cs == [Last(cs)];
    } else if First(o.Kids(), cs[0]).Some? {
      ParentBelow(cs);
      FindLast(In(o.Kids()[First(o.Kids(), cs[0]).value]), cs[1..]);
    } else {
      ParentBelow(cs);
    }
  }

  /** Sibling names are unique after an accepted create iff before it and the name was free where it lands. */
  lemma CreateUnique(img: Image, path: seq<byte>, kind: Kind)
    requires CreatePlan(img.tree, path, kind).Planned?
    ensures var h := CreatePlan(img.tree, path, kind).home;
            Unique(Create(img, path, kind).tree) <==>
            Unique(img.tree) && View(img, h + [Last(Parse(path).value)]) == None
  {
    PlanNode(img.tree, path, kind);
    var plan := CreatePlan(img.tree, path, kind);
    UniqueAfterAppend(img.tree, plan.home, plan.node);
  }

  // ---------- write ----------

  /** The descriptor of the file at a path. */
  function FileAt(tree: seq<Node>, cs: Path): Descriptor
    requires IsFileAt(tree, cs)
  {
    Find(Top(tree), cs).value.node.d
  }

  /** A file can grow when it is empty or when its lump is the last one before the list. */
  predicate CanGrow(img: Image, d: Descriptor) {
    d.size == 0 || d.offset + d.size == img.DOffset()
  }

  /** The descriptor after `n` more bytes; an empty file first moves to the end of the data. */
  function Grown(img: Image, d: Descriptor, n: nat): Descriptor {
    Descriptor(if d.size == 0 then img.DOffset() else d.offset, d.size + n, d.name)
  }

  /** What `writeToFile` does to the image, and what it returns. */
  function Write(img: Image, path: seq<byte>, buffer: seq<byte>, offset: int): (r: (Image, int)) {
    if Parse(path) == None || !IsFileAt(img.tree, Parse(path).value) then (img, -1)
    else
      var cs := Parse(path).value;
      var d := FileAt(img.tree, cs);
      if offset != d.size || !CanGrow(img, d) then (img, 0)
      else
        (img.(body := img.body + buffer, tree := SetAt(img.tree, cs, Grown(img, d, |buffer|))), |buffer|)
  }

  /** A write is carried out when the path is a file that can grow and the offset is its end. */
  predicate Accepts(img: Image, cs: Path, offset: int) {
    IsFileAt(img.tree, cs) && offset == FileAt(img.tree, cs).size && CanGrow(img, FileAt(img.tree, cs))
  }

  /**
   * An accepted write makes its file read as the old contents followed by the buffer, and
   * every other path reads as before; a rejected one changes nothing.
   */
  lemma WriteView(img: Image, path: seq<byte>, buffer: seq<byte>, offset: int, q: Path)
    requires Good(img)
    ensures var (img', n) := Write(img, path, buffer, offset);
            if Parse(path).Some? && Accepts(img, Parse(path).value, offset) then
              n == |buffer| && View(img, Parse(path).value).Some? && View(img, Parse(path).value).value.Contents?
              && View(img', q) ==
                 if q == Parse(path).value then Some(Contents(View(img, q).value.bytes + buffer)) else View(img, q)
            else
              img' == img && n == if Parse(path).Some? && IsFileAt(img.tree, Parse(path).value) then 0 else -1
  {
    if Parse(path).Some? && Accepts(img, Parse(path).value, offset) {
      var cs := Parse(path).value;
      var d := FileAt(img.tree, cs);
      FoundIsSound(img, cs);
      ShowAfterSet(img.tree, cs, Grown(img, d, |buffer|), q);
      LumpGrows(img, d, buffer);
      if IsFileAt(img.tree, q) {
        FoundIsSound(img, q);
        LumpStays(img, FileAt(img.tree, q), buffer);
      }
    }
  }

  lemma LumpGrows(img: Image, d: Descriptor, buffer: seq<byte>)
    requires SoundOne(d, img.DOffset()) && IsFileName(d.name) && CanGrow(img, d)
    ensures Lump(img.body + buffer, Grown(img, d, |buffer|)) == Lump(img.body, d) + buffer
  {
  }

  lemma LumpStays(img: Image, d: Descriptor, buffer: seq<byte>)
    requires SoundOne(d, img.DOffset()) && IsFileName(d.name)
    ensures Lump(img.body + buffer, d) == Lump(img.body, d)
  {
  }

  /** A write keeps sibling names as unique as they were. */
  lemma WriteUnique(img: Image, path: seq<byte>, buffer: seq<byte>, offset: int)
    ensures Unique(Write(img, path, buffer, offset).0.tree) <==> Unique(img.tree)
  {
    hide Unique, Find, Components;
    if Parse(path).Some? && Accepts(img, Parse(path).value, offset) {
      var cs := Parse(path).value;
      UniqueAfterSet(img.tree, cs, Grown(img, FileAt(img.tree, cs), |buffer|));
    }
  }

  /** What a write returns, by what the path reads as and where its lump lies. */
  lemma WriteResult(img: Image, path: seq<byte>, buffer: seq<byte>, offset: int)
    requires Good(img)
    ensures Write(img, path, buffer, offset).1 ==
            match Parse(path)
            case None => -1
            case Some(cs) =>
              match (View(img, cs), Show(img.tree, cs))
              case (Some(Contents(bytes)), Some(Content(d))) =>
                if offset == |bytes| && (bytes == [] || d.offset + |bytes| == 12 + |img.body|) then |buffer| else 0
              case _ => -1
  {
    hide Find, Flatten, Good, SetAt;
    if Parse(path).Some? && IsFileAt(img.tree, Parse(path).value) {
      FoundIsSound(img, Parse(path).value);
    }
  }

  /** A write keeps the image well formed while it fits. */
  lemma WriteGood(img: Image, path: seq<byte>, buffer: seq<byte>, offset: int)
    requires Good(img) && Small(Write(img, path, buffer, offset).0)
    ensures var img' := Write(img, path, buffer, offset).0;
            Good(img') && img.body <= img'.body
  {
    hide WellFormed, Flatten, Components;
    if Parse(path).Some? && Accepts(img, Parse(path).value, offset) {
      var cs := Parse(path).value;
      var d := Grown(img, FileAt(img.tree, cs), |buffer|);
      FoundIsSound(img, cs);
      WellFormedSet(img.tree, cs, d);
      SetIsUpdate(img.tree, cs, d);
      SoundUpdate(Flatten(img.tree), Spot(Top(img.tree), cs), d, img.DOffset(), img.DOffset() + |buffer|);
    }
  }

  lemma SoundUpdate(ds: seq<Descriptor>, i: nat, d: Descriptor, limit: nat, limit': nat)
    requires Sound(ds, limit) && i < |ds| && limit <= limit' && SoundOne(d, limit')
    ensures Sound(ds[i := d], limit')
  {
  }
}
