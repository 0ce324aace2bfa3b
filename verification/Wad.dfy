/**
 * The library class: a flat descriptor list in memory and its mirror in a file. Every
 * method is proved against the tree-level meaning of its path argument.
 */
module Wad {
  import opened Bytes
  import opened Names
  import opened Paths
  import opened Forest
  import opened Rebuild
  import opened Lookup
  import opened Growth
  import opened Layout
  import opened WadImage
  import opened FileSystem

  method PassSlashes(s: seq<byte>, i: nat) returns (j: nat)
    requires i <= |s|
    ensures i <= j <= |s| && (j < |s| ==> s[j] != SLASH)
    ensures Components(s[j..]) == Components(s[i..])
    ensures j == |s| <==> Components(s[i..]) == []
  {
    j := i;
    while j < |s| && s[j] == SLASH
      invariant i <= j <= |s|
      invariant Components(s[j..]) == Components(s[i..])
    {
      assert s[j..][1..] == s[j + 1..];
      j := j + 1;
    }
  }

  /** The next component and the slashes after it. */
  method PassComponent(s: seq<byte>, i: nat) returns (c: seq<byte>, j: nat)
    requires i < |s| && s[i] != SLASH && 0 !in s
    ensures i < j <= |s| && (j < |s| ==> s[j] != SLASH)
    ensures 0 !in c && Components(s[i..]) == [c] + Components(s[j..])
    ensures j == |s| <==> Components(s[j..]) == []
  {
    j := i;
    while j < |s| && s[j] != SLASH
      invariant i <= j <= |s|
      invariant SLASH !in s[i..j]
    {
      assert s[i..j + 1] == s[i..j] + [s[j]];
      j := j + 1;
    }
    assert s[i..][..j - i] == s[i..j] && s[i..][j - i..] == s[j..];
    CountToUnique(s[i..], SLASH, j - i);
    c := s[i..j];
    j := PassSlashes(s, j);
  }

  /** The end test of the child walk: of the list, of a directory, or of a map's ten lumps. */
  predicate WalkDone(ds: seq<Descriptor>, cur: Ref, d: nat, i: nat)
    requires cur.At? ==> cur.index < |ds| && (IsStart(ds[cur.index].name) ==> d < |ds|)
  {
    if !cur.At? then d == |ds|
    else if IsStart(ds[cur.index].name) then IsEnd(ds[d].name)
    else i == 10
  }

  /** The end test holds after the last child, and only there. */
  lemma WalkDoneIsLast(ds: seq<Descriptor>, cur: Ref, o: Owner, k: nat)
    requires Stands(ds, cur, o) && !o.IsFile() && k <= |o.Kids()|
    ensures cur.At? ==> cur.index < |ds| && ds[cur.index] == o.node.d
    ensures var d := Inside(cur) + Pos(o.Kids(), k);
            (cur.At? && IsStart(ds[cur.index].name) ==> d < |ds|)
            && (WalkDone(ds, cur, d, k) <==> k == |o.Kids()|)
            && (k == |o.Kids()| ==> d == Inside(cur) + |Flatten(o.Kids())|)
  {
    hide Flatten, Flat, IsStart, IsEnd, IsMap, Addressable;
    if o.In? {
      HeadOf(ds, cur.index, o.node);
      RolesDisjoint(o.node.d.name);
    }
    if o.Top? || o.node.Dir? {
      WalkEnds(ds, cur, o, k);
    } else if k == |o.Kids()| {
      assert o.Kids()[..k] == o.Kids();
    }
  }

  /** The descriptor under a pointer tells what kind of node it points at. */
  lemma OwnerHead(ds: seq<Descriptor>, cur: Ref, o: Owner)
    requires Stands(ds, cur, o)
    ensures cur.At? <==> o.In?
    ensures cur.At? ==>
              cur.index < |ds| && ds[cur.index] == o.node.d && (IsStart(o.node.d.name) <==> o.node.Dir?)
              && (IsMap(o.node.d.name) <==> o.node.Map?)
  {
    hide Flat, IsStart, IsEnd, IsMap, Addressable;
    if o.In? {
      HeadOf(ds, cur.index, o.node);
      RolesDisjoint(o.node.d.name);
    }
  }

  /** The span of a child; a lump of a map is a single descriptor. */
  lemma ChildSpan(ds: seq<Descriptor>, cur: Ref, o: Owner, k: nat)
    requires Stands(ds, cur, o) && k < |o.Kids()|
    ensures WellFormedNode(o.Kids()[k]) && Has(ds, Inside(cur) + Pos(o.Kids(), k), Flat(o.Kids()[k]))
    ensures Pos(o.Kids(), k + 1) == Pos(o.Kids(), k) + |Flat(o.Kids()[k])|
    ensures o.In? && o.node.Map? ==> |Flat(o.Kids()[k])| == 1
  {
    hide Flatten, Pos, WellFormed, Addressable, IsStart, IsEnd, IsMap;
    ChildStands(ds, cur, o, k);
  }

  lemma ChildHead(ds: seq<Descriptor>, cur: Ref, o: Owner, k: nat)
    requires Stands(ds, cur, o) && k < |o.Kids()|
    ensures var d := Inside(cur) + Pos(o.Kids(), k);
            d < |ds| && ds[d] == o.Kids()[k].d && Padded(ds[d].name)
  {
    hide Flat, Flatten, IsStart, IsEnd, IsMap;
    ChildStands(ds, cur, o, k);
    HeadOf(ds, Inside(cur) + Pos(o.Kids(), k), o.Kids()[k]);
  }

  /** What a path argument reads as. */
  function Seen(img: Image, path: seq<byte>): Option<Entry> {
    match Parse(path)
    case None => None
    case Some(cs) => View(img, cs)
  }

  predicate IsFileRef(ds: seq<Descriptor>, r: Ref)
    requires r.At? ==> r.index < |ds|
  {
    r.At? && !IsStart(ds[r.index].name) && !IsMap(ds[r.index].name)
  }

  predicate IsDirRef(ds: seq<Descriptor>, r: Ref)
    requires r.At? ==> r.index < |ds|
  {
    r.Root? || (r.At? && (IsStart(ds[r.index].name) || IsMap(ds[r.index].name)))
  }

  /** The pointer that a path denotes tells what the path reads as. */
  lemma PointerKind(img: Image, path: seq<byte>, r: Ref)
    requires Good(img)
    requires r == match Parse(path) case None => Null case Some(cs) => Denotes(Top(img.tree), Root, cs)
    ensures var ds := Flatten(img.tree);
            (r.At? ==> r.index < |ds|)
            && (IsFileRef(ds, r) <==> Parse(path).Some? && IsFileAt(img.tree, Parse(path).value))
            && (IsFileRef(ds, r) <==> Seen(img, path).Some? && Seen(img, path).value.Contents?)
            && (IsFileRef(ds, r) ==>
                  ds[r.index] == FileAt(img.tree, Parse(path).value)
                  && r.index == Spot(Top(img.tree), Parse(path).value)
                  && SoundOne(ds[r.index], img.DOffset()) && IsFileName(ds[r.index].name)
                  && |Lump(img.body, ds[r.index])| == ds[r.index].size
                  && Seen(img, path) == Some(Contents(Lump(img.body, ds[r.index]))))
            && (IsDirRef(ds, r) <==> Seen(img, path).Some? && Seen(img, path).value.Listing?)
            && (IsDirRef(ds, r) ==>
                  Find(Top(img.tree), Parse(path).value).Some?
                  && Stands(ds, r, Find(Top(img.tree), Parse(path).value).value)
                  && !Find(Top(img.tree), Parse(path).value).value.IsFile()
                  && Seen(img, path) == Some(Listing(Labels(Find(Top(img.tree), Parse(path).value).value.Kids()))))
  {
    var ds := Flatten(img.tree);
    if Parse(path).Some? {
      var cs := Parse(path).value;
      DenotesFind(ds, Top(img.tree), Root, cs);
      if Find(Top(img.tree), cs).Some? {
        OwnerHead(ds, r, Find(Top(img.tree), cs).value);
        if IsFileAt(img.tree, cs) {
          FoundIsSound(img, cs);
        }
      }
    }
  }

  /** File sizes stay below 2^31, so a signed offset equals one exactly when its cast does. */
  lemma SmallFields(img: Image, path: seq<byte>)
    requires Good(img)
    ensures Parse(path).Some? && IsFileAt(img.tree, Parse(path).value) ==>
              FileAt(img.tree, Parse(path).value).size < 0x8000_0000
  {
    if Parse(path).Some? && IsFileAt(img.tree, Parse(path).value) {
      FoundIsSound(img, Parse(path).value);
    }
  }

  lemma GoodTree(img: Image)
    requires Good(img)
    ensures WellFormed(img.tree)
  {
  }

  lemma HeldLists(img: Image, file: seq<byte>)
    ensures OnDisk(file, img) <==> Holds(file, img.magic, img.body, Flatten(img.tree))
  {
  }

  lemma LumpData(file: seq<byte>, magic: seq<byte>, body: seq<byte>, ds: seq<Descriptor>)
    requires Holds(file, magic, body, ds)
    ensures 12 + |body| <= |file| && file[12..12 + |body|] == body
  {
  }

  /** Reading part of a lump from the file. */
  lemma LumpInFile(file: seq<byte>, img: Image, d: Descriptor, offset: nat, count: nat)
    requires OnDisk(file, img) && 12 <= d.offset && d.offset + d.size <= img.DOffset() && offset + count <= d.size
    ensures PRead(file, count, d.offset + offset) == Lump(img.body, d)[offset..offset + count]
  {
    hide Flatten, Encode, Word, WordValue;
    LumpData(file, img.magic, img.body, Flatten(img.tree));
    SubSlice(file, 12, img.body, d.offset - 12 + offset, count);
    var from := d.offset - 12 + offset;
    assert Lump(img.body, d)[offset..offset + count] == img.body[from..from + count];
  }

  lemma SubSlice(file: seq<byte>, at: nat, body: seq<byte>, i: nat, n: nat)
    requires Has(file, at, body) && i + n <= |body|
    ensures file[at + i..at + i + n] == body[i..i + n]
  {
    var a, b, all := file[at + i..at + i + n], body[i..i + n], file[at..at + |body|];
    forall j | 0 <= j < n
      ensures a[j] == b[j]
    {
      assert all[i + j] == a[j];
    }
  }

  /** What `Resolve` in create mode says about the plan for a path. */
  lemma PlanLands(tree: seq<Node>, path: seq<byte>, kind: Kind, r: Ref, name: Name)
    requires match Parse(path)
             case None => r == Null
             case Some(cs) =>
               match Lands(Top(tree), Root, true, cs)
               case None => r == Null
               case Some(i) => r == At(i) && |Last(cs)| <= 8 && name == Pad(Last(cs))
    ensures r == Null ==> CreatePlan(tree, path, kind) == Refused
    ensures r != Null ==>
              var c, plan := CString(name), CreatePlan(tree, path, kind);
              r.At? && r.index <= |Flatten(tree)| && IsComponent(c) && |c| <= 8 && name == Pad(c)
              && match MakeNode(kind, c)
                 case None => plan == Refused
                 case Some(n) => plan.Planned? && plan.node == n && r.index == EndPos(tree, plan.home)
  {
    hide Components, First, Flatten, MakeNode;
    if Parse(path).Some? && r != Null {
      var c := Last(Parse(path).value);
      CountToStops(path, 0);
      ComponentsAreComponents(CString(path));
      assert c in Components(CString(path));
      PadText(c);
    }
  }

  /** `memcpy` of a marker behind the name in the buffer. */
  function Overwrite(name: Name, at: nat, marker: seq<byte>): Name
    requires at + |marker| <= 8
  {
    name[..at] + marker + name[at + |marker|..]
  }

  lemma OverwritePads(c: seq<byte>, marker: seq<byte>)
    requires |c| + |marker| <= 8
    ensures Overwrite(Pad(c), |c|, marker) == Pad(c + marker)
  {
  }

  class Wad {
    var magic: seq<byte>
    var doffset: nat
    var descriptors: seq<Descriptor>
    /** The contents of the open file behind `fd`. */
    var file: seq<byte>
    /** Whether the data pointer of an empty vector is null, which the language leaves open. */
    const emptyDataIsNull: bool
    /** The tree that `descriptors` flattens; there is at most one (`Rebuild.FlattenInjective`). */
    ghost var tree: seq<Node>

    /** A pointer to the end of the list is null. */
    predicate NoData()
      reads this
    {
      descriptors == [] && emptyDataIsNull
    }

    /** The image this object stands for. */
    ghost function Abs(): Image
      reads this
    {
      Image(magic, if 12 <= doffset <= |file| then file[12..doffset] else [], tree)
    }

    ghost predicate Valid()
      reads this
    {
      Good(Abs()) && OnDisk(file, Abs()) && doffset == Abs().DOffset() && descriptors == Flatten(tree)
    }

    /**
     * Reads any file that could be opened. The object is valid exactly when the file holds a
     * well-formed image, and then it stands for that image.
     */
    constructor LoadWad(contents: seq<byte>, memory: seq<byte>, emptyDataIsNull: bool)
      requires |memory| == 12
      ensures (magic, doffset, descriptors) == Load(contents, memory) && file == contents
      ensures this.emptyDataIsNull == emptyDataIsNull
      ensures Valid() <==> exists img :: Good(img) && OnDisk(contents, img)
      ensures forall img | Good(img) && OnDisk(contents, img) :: Abs() == img
    {
      hide Good, Flatten, WellFormed, Decode, Rebuild.Rebuild;
      var header := Overlay(PRead(contents, 12, 0), memory);
      var dcount := WordValue(header[4..8]);
      var start := WordValue(header[8..12]);
      var list := Decode(Overlay(PRead(contents, 16 * dcount, start), Zeros(16 * dcount)));
      magic := header[..4];
      doffset := start;
      descriptors := list;
      file := contents;
      this.emptyDataIsNull := emptyDataIsNull;
      tree := match Rebuild.Rebuild(list) case None => [] case Some(f) => f;
      new;
      forall img | Good(img) && OnDisk(contents, img)
        ensures Valid() && Abs() == img
      {
        LoadReads(contents, memory, img);
        GoodTree(img);
        RebuildFlatten(img.tree);
        LumpData(contents, img.magic, img.body, Flatten(img.tree));
      }
    }

    /** From the first descriptor of `n` the scan stops one past the span of `n`. */
    method Skip(i: nat, ghost n: Node) returns (j: nat)
      requires WellFormedNode(n) && Has(descriptors, i, Flat(n))
      ensures j == i + |Flat(n)|
    {
      hide WellFormedNode, Flat, Has, IsStart, IsEnd, IsMap;
      SkipNode(descriptors, i, 0, n);
      j := i;
      var depth := 0;
      var started := false;
      while !started || depth != 0
        invariant started && depth == 0 ==> Some(j) == Scan(descriptors, i, 0)
        invariant !started || depth != 0 ==> Scan(descriptors, j, depth) == Scan(descriptors, i, 0)
        decreases !started || depth != 0, |descriptors| - j
      {
        started := true;
        if IsStart(descriptors[j].name) {
          depth := depth + 1;
        } else if IsEnd(descriptors[j].name) {
          depth := depth - 1;
        } else if IsMap(descriptors[j].name) {
          j := j + 10;
        }
        j := j + 1;
      }
    }

    /** One step of the child walk: over a lump in a map, over a whole node elsewhere. */
    method WalkNext(cur: Ref, d: nat, ghost o: Owner, ghost k: nat) returns (d': nat)
      requires Stands(descriptors, cur, o) && k < |o.Kids()| && d == Inside(cur) + Pos(o.Kids(), k)
      requires cur.At? ==> cur.index < |descriptors| && descriptors[cur.index] == o.node.d
      ensures d' == Inside(cur) + Pos(o.Kids(), k + 1)
    {
      hide Stands, Flatten, Flat, Has, Pos, WellFormed, WellFormedNode, IsStart, IsEnd, IsMap;
      ChildSpan(descriptors, cur, o, k);
      OwnerHead(descriptors, cur, o);
      if cur.At? && !IsStart(descriptors[cur.index].name) {
        d' := d + 1;
      } else {
        d' := Skip(d, o.Kids()[k]);
      }
    }

    /**
     * The child walk of `resolve` over what `cur` points at: `isDir` is false when it has no
     * children to walk; otherwise `d` is the first child named `c`, or where the walk ends.
     */
    method FindChild(cur: Ref, component: Name, ghost o: Owner, ghost c: seq<byte>)
      returns (isDir: bool, hit: bool, d: nat)
      requires Stands(descriptors, cur, o) && |c| <= 8 && 0 !in c && component == Pad(c)
      ensures isDir == !o.IsFile()
      ensures isDir ==> hit == First(o.Kids(), c).Some?
      ensures isDir && hit ==> d == Inside(cur) + Pos(o.Kids(), First(o.Kids(), c).value)
      ensures isDir && !hit ==> d == Inside(cur) + |Flatten(o.Kids())|
    {
      hide Stands, Flatten, Flat, Pos, WellFormed, WellFormedNode, First, IsStart, IsMap, IsEnd, Stripped, Padded;
      hide Names.Label, Pad;
      OwnerHead(descriptors, cur, o);
      isDir, hit, d := true, false, 0;
      if cur.At? && !IsStart(descriptors[cur.index].name) && !IsMap(descriptors[cur.index].name) {
        isDir := false;
        return;
      }
      d := Inside(cur);
      var i := 0;
      PosEnds(o.Kids());
      WalkDoneIsLast(descriptors, cur, o, 0);
      while !WalkDone(descriptors, cur, d, i)
        invariant i <= |o.Kids()| && d == Inside(cur) + Pos(o.Kids(), i)
        invariant cur.At? ==> cur.index < |descriptors| && descriptors[cur.index] == o.node.d
        invariant cur.At? && IsStart(descriptors[cur.index].name) ==> d < |descriptors|
        invariant WalkDone(descriptors, cur, d, i) <==> i == |o.Kids()|
        invariant i == |o.Kids()| ==> d == Inside(cur) + |Flatten(o.Kids())|
        invariant forall j | 0 <= j < i :: o.Kids()[j].Label() != c
        decreases |o.Kids()| - i
      {
        ChildHead(descriptors, cur, o, i);
        StrippedIsLabel(descriptors[d].name, c);
        if component == Stripped(descriptors[d].name) {
          FirstIs(o.Kids(), c, i);
          hit := true;
          return;
        }
        d := WalkNext(cur, d, o, i);
        i := i + 1;
        WalkDoneIsLast(descriptors, cur, o, i);
      }
      FirstIs(o.Kids(), c, |o.Kids()|);
    }

    /**
     * The pointer a path denotes, or in create mode the insertion point for the path with
     * the padded name of the node to create.
     */
    method Resolve(path: seq<byte>, create: bool) returns (r: Ref, name: Name)
      requires Valid()
      ensures !create ==>
                r == match Parse(path) case None => Null case Some(cs) => Denotes(Top(tree), Root, cs)
      ensures create && NoData() ==> r == Null
      ensures create && !NoData() ==>
                match Parse(path)
                case None => r == Null
                case Some(cs) =>
                  match Lands(Top(tree), Root, true, cs)
                  case None => r == Null
                  case Some(i) => r == At(i) && |Last(cs)| <= 8 && name == Pad(Last(cs))
    {
      hide Good, OnDisk, Flatten, Pos, First, Stands, Denotes, Lands, OpenEnd, IsEnd, IsStart, IsMap, Components;
      RootStands(Abs());
      name := Zeros(8);
      var s := CString(path);
      CountToStops(path, 0);
      if s == [] || s[0] != SLASH {
        return Null, name;
      }
      var i := PassSlashes(s, 0);
      assert s[0..] == s;
      var cur := Root;
      ghost var cs := Components(s);
      ghost var o, open, done := Top(tree), true, [];
      while i < |s|
        invariant i <= |s| && (i < |s| ==> s[i] != SLASH)
        invariant i == |s| <==> Components(s[i..]) == []
        invariant cs == done + Components(s[i..])
        invariant Stands(descriptors, cur, o)
        invariant OpenEnd(descriptors, cur, o, open)
        invariant Denotes(o, cur, Components(s[i..])) == Denotes(Top(tree), Root, cs)
        invariant Lands(o, cur, open, Components(s[i..])) == Lands(Top(tree), Root, true, cs)
        decreases |s| - i
      {
        ghost var here := Components(s[i..]);
        var c;
        c, i := PassComponent(s, i);
        ghost var rest := Components(s[i..]);
        if |c| > 8 {
          LongName(o, cur, open, here);
          return Null, name;
        }
        var component := Pad(c);
        var isDir, hit, d := FindChild(cur, component, o, c);
        if !isDir {
          NoChild(o, cur, open, here);
          return Null, name;
        }
        if hit {
          ghost var k := First(o.Kids(), c).value;
          LookupStep(descriptors, o, cur, open, here, k);
          cur, o, open := At(d), In(o.Kids()[k]), k == |o.Kids()| - 1;
          done := done + [c];
        } else {
          NoChild(o, cur, open, here);
          WalkTail(descriptors, cur, o, open);
          if create && i == |s| && (d == |descriptors| || IsEnd(descriptors[d].name)) {
            return if NoData() then Null else At(d), component;
          }
          return Null, name;
        }
      }
      NoMore(o, cur, open);
      r := if create then Null else cur;
    }

    // ---------- reading ----------

    method IsContent(path: seq<byte>) returns (b: bool)
      requires Valid()
      ensures b <==> Seen(Abs(), path).Some? && Seen(Abs(), path).value.Contents?
    {
      var desc, _ := Resolve(path, false);
      PointerKind(Abs(), path, desc);
      b := IsFileRef(descriptors, desc);
    }

    method IsDirectory(path: seq<byte>) returns (b: bool)
      requires Valid()
      ensures b <==> Seen(Abs(), path).Some? && Seen(Abs(), path).value.Listing?
    {
      var desc, _ := Resolve(path, false);
      PointerKind(Abs(), path, desc);
      b := IsDirRef(descriptors, desc);
    }

    method GetSize(path: seq<byte>) returns (size: int)
      requires Valid()
      ensures size == match Seen(Abs(), path) case Some(Contents(bytes)) => |bytes| case _ => -1
    {
      var desc, _ := Resolve(path, false);
      PointerKind(Abs(), path, desc);
      size := if IsFileRef(descriptors, desc) then descriptors[desc.index].size else -1;
    }

    /** Reads the part of a file that the offset and length select, or all that is there. */
    method GetContents(path: seq<byte>, length: nat, offset: nat) returns (n: int, buffer: seq<byte>)
      requires Valid()
      ensures match Seen(Abs(), path)
              case Some(Contents(bytes)) =>
                n == |buffer|
                && buffer == if offset >= |bytes| then []
                             else if offset + length >= |bytes| then bytes[offset..]
                             else bytes[offset..offset + length]
              case _ => n == -1 && buffer == []
    {
      hide Flatten, Seen, Stands, Denotes, Parse, IsDirRef, Lump, WellFormed, Encode, PRead, IsFileName;
      var desc, _ := Resolve(path, false);
      PointerKind(Abs(), path, desc);
      if !IsFileRef(descriptors, desc) {
        return -1, [];
      }
      var d := descriptors[desc.index];
      if offset >= d.size {
        return 0, [];
      }
      var count := if length > d.size - offset then d.size - offset else length;
      LumpInFile(file, Abs(), d, offset, count);
      buffer := PRead(file, count, d.offset + offset);
      n := |buffer|;
    }

    // ---------- changing ----------

    /** Inserts into the list and rewrites the count and the tail of the list on disk. */
    method InsertDescriptors(index: nat, xs: seq<Descriptor>, ghost body: seq<byte>)
      requires index <= |descriptors| && doffset == 12 + |body| && Holds(file, magic, body, descriptors)
      modifies `descriptors, `file
      ensures descriptors == Insert(old(descriptors), index, xs)
      ensures Holds(file, magic, body, descriptors)
    {
      hide Holds, PWrite, Word, Encode;
      HoldsAfterInsert(file, magic, body, descriptors, index, xs);
      descriptors := descriptors[..index] + xs + descriptors[index..];
      var dcount := |descriptors|;
      file := PWrite(file, Word(dcount), 4);
      file := PWrite(file, Encode(descriptors[index..]), doffset + 16 * index);
    }

    /** The ghost half of a create: the tree takes the node that the list took. */
    ghost method Graft(before: Image, path: seq<byte>, kind: Kind)
      requires Good(before) && Small(Create(before, path, kind)) && CreatePlan(before.tree, path, kind).Planned?
      requires magic == before.magic && tree == before.tree && doffset == before.DOffset()
      requires var plan := CreatePlan(before.tree, path, kind);
               descriptors == Insert(Flatten(before.tree), EndPos(before.tree, plan.home), Flat(plan.node))
      requires Holds(file, magic, before.body, descriptors)
      modifies `tree
      ensures Valid() && Abs() == Create(before, path, kind)
    {
      var plan := CreatePlan(before.tree, path, kind);
      AppendIsInsert(before.tree, plan.home, plan.node);
      CreateGood(before, path, kind);
      tree := AppendAt(before.tree, plan.home, plan.node);
      LumpData(file, magic, before.body, descriptors);
    }

    method CreateDirectory(path: seq<byte>)
      requires Valid() && Small(Create(Abs(), path, Directory))
      modifies this
      ensures Valid() && Abs() == if old(NoData()) then old(Abs()) else Create(old(Abs()), path, Directory)
      ensures old(NoData()) || CreatePlan(old(tree), path, Directory) == Refused ==> unchanged(this)
    {
      hide Good, Small, OnDisk, Holds, Flatten, Flat, Parse, Lands, CreatePlan, EndPos, Encode;
      ghost var before := Abs();
      var desc, name := Resolve(path, true);
      if !NoData() {
        PlanLands(tree, path, Directory, desc, name);
      }
      var namelen := CountTo(name, 0);
      if desc == Null || namelen > 2 {
        return;
      }
      OverwritePads(CString(name), START);
      OverwritePads(CString(name), END);
      var start := Descriptor(0, 0, Overwrite(name, namelen, START));
      var end := Descriptor(0, 0, Overwrite(name, namelen, END));
      MakeNodeIff(Directory, CString(name));
      HeldLists(Abs(), file);
      InsertDescriptors(desc.index, [start, end], before.body);
      Graft(before, path, Directory);
    }

    method CreateFile(path: seq<byte>)
      requires Valid() && Small(Create(Abs(), path, PlainFile))
      modifies this
      ensures Valid() && Abs() == if old(NoData()) then old(Abs()) else Create(old(Abs()), path, PlainFile)
      ensures old(NoData()) || CreatePlan(old(tree), path, PlainFile) == Refused ==> unchanged(this)
    {
      hide Good, Small, OnDisk, Holds, Flatten, Flat, Parse, Lands, CreatePlan, EndPos, Encode, IsStart, IsMap, IsEnd;
      ghost var before := Abs();
      var desc, name := Resolve(path, true);
      if !NoData() {
        PlanLands(tree, path, PlainFile, desc, name);
      }
      if desc == Null || IsStart(name) || IsMap(name) || IsEnd(name) {
        return;
      }
      MakeNodeIff(PlainFile, CString(name));
      HeldLists(Abs(), file);
      InsertDescriptors(desc.index, [Descriptor(0, 0, name)], before.body);
      Graft(before, path, PlainFile);
    }

    /** Puts the data over the old list and the list, with one new descriptor, behind the data. */
    method AppendData(index: nat, d: Descriptor, buffer: seq<byte>, ghost body: seq<byte>)
      requires index < |descriptors| && doffset == 12 + |body| && Holds(file, magic, body, descriptors)
      modifies `doffset, `descriptors, `file
      ensures doffset == 12 + |body + buffer| && descriptors == old(descriptors)[index := d]
      ensures Holds(file, magic, body + buffer, descriptors)
    {
      hide Holds, PWrite, Word, Encode;
      HoldsAfterWrite(file, magic, body, descriptors, buffer, descriptors[index := d]);
      doffset := doffset + |buffer|;
      descriptors := descriptors[index := d];
      file := PWrite(file, Word(doffset), 8);
      file := PWrite(file, buffer, doffset - |buffer|);
      file := PWrite(file, Encode(descriptors), doffset);
    }

    /** The ghost half of a write: the file's descriptor in the tree follows the list. */
    ghost method Settle(before: Image, path: seq<byte>, buffer: seq<byte>, offset: int)
      requires Good(before) && Small(Write(before, path, buffer, offset).0)
      requires Parse(path).Some? && Accepts(before, Parse(path).value, offset)
      requires magic == before.magic && tree == before.tree && doffset == before.DOffset() + |buffer|
      requires var cs := Parse(path).value;
               Spot(Top(tree), cs) < |Flatten(tree)|
               && descriptors == Flatten(tree)[Spot(Top(tree), cs) := Grown(before, FileAt(tree, cs), |buffer|)]
      requires Holds(file, magic, before.body + buffer, descriptors)
      modifies `tree
      ensures Valid() && Abs() == Write(before, path, buffer, offset).0
    {
      hide Good, Small, Holds, Flatten, Find, Components;
      var cs := Parse(path).value;
      var d := Grown(before, FileAt(tree, cs), |buffer|);
      WriteGood(before, path, buffer, offset);
      SetIsUpdate(tree, cs, d);
      tree := SetAt(tree, cs, d);
      LumpData(file, magic, before.body + buffer, descriptors);
    }

    /**
     * Appends to a file whose end is the end of the lump data, or starts an empty file there:
     * the data goes over the old descriptor list, and the list is written again behind it.
     */
    method WriteToFile(path: seq<byte>, buffer: seq<byte>, offset: int) returns (n: int)
      requires Valid() && -0x8000_0000 <= offset < 0x8000_0000
      requires Small(Write(Abs(), path, buffer, offset).0)
      modifies this
      ensures Valid() && (Abs(), n) == Write(old(Abs()), path, buffer, offset)
      ensures Parse(path) == None || !Accepts(old(Abs()), Parse(path).value, offset) ==> unchanged(this)
    {
      hide Good, Small, OnDisk, Holds, Flatten, Parse, Denotes, Seen, Encode, IsDirRef, Stands, Find, Lump;
      hide IsFileName, IsStart, IsMap, View;
      ghost var before := Abs();
      var desc, _ := Resolve(path, false);
      PointerKind(before, path, desc);
      SmallFields(before, path);
      if !IsFileRef(descriptors, desc) {
        return -1;
      }
      var d := descriptors[desc.index];
      if offset % TWO32 != d.size {
        return 0;
      } else if d.size == 0 {
        d := d.(offset := doffset);
      } else if d.offset + d.size != doffset {
        return 0;
      }
      HeldLists(Abs(), file);
      AppendData(desc.index, d.(size := d.size + |buffer|), buffer, before.body);
      Settle(before, path, buffer, offset);
      n := |buffer|;
    }

    /** Appends the names of the children in list order and returns how many there are. */
    method GetDirectory(path: seq<byte>, directory: seq<seq<byte>>) returns (count: int, directory': seq<seq<byte>>)
      requires Valid()
      ensures match Seen(Abs(), path)
              case Some(Listing(names)) => count == |names| && directory' == directory + names
              case _ => count == -1 && directory' == directory
    {
      hide Good, OnDisk, Stands, Flatten, Flat, Pos, WellFormed, WellFormedNode, IsStart, IsEnd, IsMap;
      hide Denotes, Parse, Find, Seen, IsDirRef;
      var cur, _ := Resolve(path, false);
      PointerKind(Abs(), path, cur);
      count, directory' := -1, directory;
      if !IsDirRef(descriptors, cur) {
        return;
      }
      ghost var o := Find(Top(tree), Parse(path).value).value;
      OwnerHead(descriptors, cur, o);
      count := 0;
      var d := Inside(cur);
      PosEnds(o.Kids());
      WalkDoneIsLast(descriptors, cur, o, 0);
      while !WalkDone(descriptors, cur, d, count)
        invariant 0 <= count <= |o.Kids()| && d == Inside(cur) + Pos(o.Kids(), count)
        invariant cur.At? ==> cur.index < |descriptors| && descriptors[cur.index] == o.node.d
        invariant cur.At? && IsStart(descriptors[cur.index].name) ==> d < |descriptors|
        invariant WalkDone(descriptors, cur, d, count) <==> count == |o.Kids()|
        invariant directory' == directory + Labels(o.Kids())[..count]
        decreases |o.Kids()| - count
      {
        ChildHead(descriptors, cur, o, count);
        directory' := directory' + [Names.Label(descriptors[d].name)];
        d := WalkNext(cur, d, o, count);
        count := count + 1;
        WalkDoneIsLast(descriptors, cur, o, count);
      }
    }
  }

  lemma RootStands(img: Image)
    requires Good(img)
    ensures Stands(Flatten(img.tree), Root, Top(img.tree)) && OpenEnd(Flatten(img.tree), Root, Top(img.tree), true)
  {
  }

  /** `open` tells whether the position after the lumps of a map is an end of the enclosing list. */
  predicate OpenEnd(ds: seq<Descriptor>, cur: Ref, o: Owner, open: bool) {
    if o.In? && o.node.Map? then open == AtClose(ds, Inside(cur) + |Flatten(o.Kids())|) else true
  }

  /** A component longer than eight characters matches nothing and names nothing. */
  lemma LongName(o: Owner, cur: Ref, open: bool, cs: Path)
    requires cs != [] && |cs[0]| > 8
    ensures Denotes(o, cur, cs) == Null && Lands(o, cur, open, cs) == None
  {
    FirstIs(o.Kids(), cs[0], |o.Kids()|);
  }

  /** Without a matching child nothing is denoted, and only a last component can land. */
  lemma NoChild(o: Owner, cur: Ref, open: bool, cs: Path)
    requires cs != [] && First(o.Kids(), cs[0]) == None && |cs[0]| <= 8
    ensures Denotes(o, cur, cs) == Null
    ensures Lands(o, cur, open, cs) ==
            if |cs| == 1 && !o.IsFile() && (o.In? && o.node.Map? ==> open)
            then Some(Inside(cur) + |Flatten(o.Kids())|) else None
  {
  }

  /** After the walk the create guard decides as `open` says; elsewhere it accepts. */
  lemma WalkTail(ds: seq<Descriptor>, cur: Ref, o: Owner, open: bool)
    requires Stands(ds, cur, o) && OpenEnd(ds, cur, o, open) && !o.IsFile()
    ensures Inside(cur) + |Flatten(o.Kids())| <= |ds|
    ensures AtClose(ds, Inside(cur) + |Flatten(o.Kids())|) <==> (o.In? && o.node.Map? ==> open)
  {
    hide Flatten, WellFormed, Addressable, IsStart, IsEnd, IsMap, Pos;
    KidsLie(ds, cur, o);
    if o.Top? || o.node.Dir? {
      WalkEnds(ds, cur, o, |o.Kids()|);
    }
  }

  /** At the end of the path the current node is what it denotes, and nothing is created. */
  lemma NoMore(o: Owner, cur: Ref, open: bool)
    ensures Denotes(o, cur, []) == cur && Lands(o, cur, open, []) == None
  {
  }

  /** Descending into the matching child. */
  lemma LookupStep(ds: seq<Descriptor>, o: Owner, cur: Ref, open: bool, cs: Path, k: nat)
    requires Stands(ds, cur, o) && OpenEnd(ds, cur, o, open) && cs != [] && First(o.Kids(), cs[0]) == Some(k)
    ensures var cur', o', open' := At(Inside(cur) + Pos(o.Kids(), k)), In(o.Kids()[k]), k == |o.Kids()| - 1;
            Stands(ds, cur', o') && OpenEnd(ds, cur', o', open')
            && Denotes(o', cur', cs[1..]) == Denotes(o, cur, cs)
            && Lands(o', cur', open', cs[1..]) == Lands(o, cur, open, cs)
  {
    hide Flatten, Flat, WellFormed, First, Home, Addressable, IsStart, IsEnd, IsMap, Pos;
    ChildStands(ds, cur, o, k);
    LandsStep(o, cur, open, cs, k);
    if o.Kids()[k].Map? {
      MapSpan(o.Kids()[k]);
      WalkEnds(ds, cur, o, k + 1);
    }
  }

  lemma MapSpan(m: Node)
    requires m.Map?
    ensures |Flat(m)| == 1 + |Flatten(m.kids)|
  {
  }
}
