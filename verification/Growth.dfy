/** Where a path to be created lands, and rewriting a file's descriptor in the tree. */
module Growth {
  import opened Bytes
  import opened Names
  import opened Paths
  import opened Forest
  import opened Lookup

  /** `c` can be the name of a new child of a node with the given children. */
  predicate Fresh(f: seq<Node>, c: seq<byte>) {
    First(f, c) == None && |c| <= 8
  }

  /**
   * The directory that receives a node created at `cs`, if the create is accepted.
   * A map that is the last of its siblings passes the guard of the library, and the node
   * then lands in the directory around the map.
   */
  function Home(f: seq<Node>, cs: Path): (h: Option<Path>)
    ensures h.Some? ==> cs != [] && IsHome(f, h.value) && |Last(cs)| <= 8
    decreases |cs|
  {
    if cs == [] then None
    else match First(f, cs[0])
      case None => if |cs| == 1 && |cs[0]| <= 8 then Some([]) else None
      case Some(k) =>
        match f[k]
        case File(_) => None
        case Map(_, kids) =>
          if |cs| == 2 && k == |f| - 1 && Fresh(kids, cs[1]) then Some([]) else None
        case Dir(_, kids, _) =>
          match Home(kids, cs[1..])
          case None => None
          case Some(h) =>
            HomeCons(f, k, cs[0], h);
            Some([cs[0]] + h)
  }

  lemma HomeCons(f: seq<Node>, k: nat, c: seq<byte>, h: Path)
    requires First(f, c) == Some(k) && f[k].Dir? && IsHome(f[k].kids, h)
    ensures IsHome(f, [c] + h)
  {
    assert ([c] + h)[1..] == h;
  }

  /** The last component, which names the node to create. */
  function Last(cs: Path): seq<byte>
    requires cs != []
  {
    cs[|cs| - 1]
  }

  function Parent(cs: Path): Path
    requires cs != []
  {
    cs[..|cs| - 1]
  }

  /** `p` denotes a map that is the last child of whatever encloses it. */
  predicate EndsWithMap(f: seq<Node>, p: Path) {
    p != [] &&
    match Find(Top(f), Parent(p))
    case None => false
    case Some(o) =>
      o.Kids() != [] && First(o.Kids(), Last(p)) == Some(|o.Kids()| - 1) && o.Kids()[|o.Kids()| - 1].Map?
  }

  /**
   * The placement rule in terms of what the parent path denotes: a root or directory
   * receives the node; a file or nothing refuses it; a map refuses it unless the map is
   * the last of its siblings, and then the directory around the map receives it.
   */
  function Placement(f: seq<Node>, cs: Path): Option<Path>
    requires cs != []
  {
    match Find(Top(f), Parent(cs))
    case None => None
    case Some(o) =>
      if o.IsFile() || !Fresh(o.Kids(), Last(cs)) then None
      else if o.Top? || o.node.Dir? then Some(Parent(cs))
      else if EndsWithMap(f, Parent(cs)) then Some(Parent(Parent(cs)))
      else None
  }

  /** The scan for an insertion point follows the placement rule, on every forest and path. */
  lemma {:induction false} HomeExact(f: seq<Node>, cs: Path)
    requires cs != [] && WellFormed(f)
    ensures Home(f, cs) == Placement(f, cs)
    decreases |cs|
  {
    hide Addressable, IsStart, IsEnd, IsMap;
    var p := Parent(cs);
    if |cs| > 1 {
      match First(f, cs[0])
      case None =>
      case Some(k) =>
        WellFormedAt(f, k);
        FindBelow(f, k, p);
        match f[k]
        case File(_) =>
        case Map(_, kids) =>
          if |p| > 1 {
            FindInFiles(f[k], p[1..]);
          }
        case Dir(_, kids, _) =>
          HomeExact(kids, cs[1..]);
          PlacementBelow(f, k, cs);
    }
  }

  lemma PlacementBelow(f: seq<Node>, k: nat, cs: Path)
    requires |cs| > 1 && First(f, cs[0]) == Some(k) && f[k].Dir?
    ensures Placement(f, cs) ==
            match Placement(f[k].kids, cs[1..])
            case None => None
            case Some(h) => Some([cs[0]] + h)
  {
    hide EndsWithMap, First;
    var p := Parent(cs);
    ParentBelow(cs);
    FindBelow(f, k, p);
    if |p| > 1 {
      EndsWithMapBelow(f, k, p);
      ParentBelow(p);
    }
  }

  lemma EndsWithMapBelow(f: seq<Node>, k: nat, p: Path)
    requires |p| > 1 && First(f, p[0]) == Some(k) && f[k].Dir?
    ensures EndsWithMap(f, p) == EndsWithMap(f[k].kids, p[1..])
  {
    ParentBelow(p);
    var q := Parent(p);
    FindBelow(f, k, q);
    if |q| == 1 {
      assert Find(In(f[k]), q[1..]) == Some(In(f[k]));
    }
  }

  lemma ParentBelow(cs: Path)
    requires |cs| > 1
    ensures Parent(cs) == [cs[0]] + Parent(cs[1..]) && Parent(cs)[1..] == Parent(cs[1..])
    ensures Last(cs[1..]) == Last(cs)
  {
  }

  /** Below a map there are files only. */
  lemma FindInFiles(m: Node, p: Path)
    requires m.Map? && WellFormedNode(m) && p != []
    ensures match Find(In(m), p) case None => true case Some(o) => o.IsFile()
  {
    match First(m.kids, p[0])
    case None =>
    case Some(k) => assert |p| == 1 || First(m.kids[k].Kids(), p[1..][0]) == None;
  }

  lemma {:induction false} WellFormedAppend(f: seq<Node>, h: Path, n: Node)
    requires WellFormed(f) && IsHome(f, h) && WellFormedNode(n)
    ensures WellFormed(AppendAt(f, h, n))
    decreases |h|
  {
    if h == [] {
      WellFormedConcat(f, [n]);
    } else {
      var k := First(f, h[0]).value;
      WellFormedAt(f, k);
      WellFormedAppend(f[k].kids, h[1..], n);
      WellFormedUpdate(f, k, AppendAt(f, h, n)[k]);
    }
  }

  // ---------- rewriting one file's descriptor ----------

  predicate IsFileAt(f: seq<Node>, cs: Path) {
    match Find(Top(f), cs)
    case None => false
    case Some(o) => o.IsFile()
  }

  /** `f` with `d` in place of the descriptor of the file at `cs`. */
  function SetAt(f: seq<Node>, cs: Path, d: Descriptor): seq<Node>
    requires IsFileAt(f, cs)
    decreases |cs|
  {
    var k := First(f, cs[0]).value;
    FindBelow(f, k, cs);
    if |cs| == 1 then f[k := File(d)]
    else f[k := f[k].(kids := SetAt(f[k].kids, cs[1..], d))]
  }

  /** No path but the file's own shows anything of the change. */
  lemma {:induction false} ShowAfterSet(f: seq<Node>, cs: Path, d: Descriptor, q: Path)
    requires IsFileAt(f, cs) && d.name == Find(Top(f), cs).value.node.d.name
    ensures Show(SetAt(f, cs, d), q) == if q == cs then Some(Content(d)) else Show(f, q)
    decreases |cs|
  {
    var k := First(f, cs[0]).value;
    var g := SetAt(f, cs, d);
    FindBelow(f, k, cs);
    if q == [] {
      assert Labels(g) == Labels(f);
    } else {
      SamePath(q, cs);
      ShowAfterStep(f, k, g[k], q);
      if |cs| > 1 {
        ShowAfterSet(f[k].kids, cs[1..], d, q[1..]);
      } else if q == cs {
        FirstUpdate(f, k, g[k], q[0]);
        ShowBelow(g, k, q);
      }
    }
  }

  lemma {:induction false} WellFormedSet(f: seq<Node>, cs: Path, d: Descriptor)
    requires WellFormed(f) && IsFileAt(f, cs) && d.name == Find(Top(f), cs).value.node.d.name
    ensures WellFormed(SetAt(f, cs, d))
    decreases |cs|
  {
    hide Addressable, IsStart, IsEnd, IsMap, First, Names.Label;
    var k := First(f, cs[0]).value;
    var g := SetAt(f, cs, d);
    FindBelow(f, k, cs);
    WellFormedAt(f, k);
    if |cs| > 1 {
      WellFormedSet(f[k].kids, cs[1..], d);
    }
    WellFormedUpdate(f, k, g[k]);
  }

  /** Writing to a file neither makes nor breaks the uniqueness of sibling labels. */
  lemma {:induction false} UniqueAfterSet(f: seq<Node>, cs: Path, d: Descriptor)
    requires IsFileAt(f, cs) && d.name == Find(Top(f), cs).value.node.d.name
    ensures Unique(SetAt(f, cs, d)) <==> Unique(f)
    decreases |cs|
  {
    var k := First(f, cs[0]).value;
    FindBelow(f, k, cs);
    if |cs| > 1 {
      UniqueAfterSet(f[k].kids, cs[1..], d);
    }
    UniqueUpdate(f, k, SetAt(f, cs, d)[k], true);
  }
}
