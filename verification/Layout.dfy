/** Where the nodes of a tree lie in its descriptor list. */
module Layout {
  import opened Bytes
  import opened Names
  import opened Paths
  import opened Forest
  import opened Lookup
  import opened Growth

  /** A descriptor pointer: null, `WAD_ROOT`, or an element of the list. */
  datatype Ref = Null | Root | At(index: nat)

  /** `cur` points at `o` in `ds`. */
  predicate Stands(ds: seq<Descriptor>, cur: Ref, o: Owner) {
    match (cur, o)
    case (Root, Top(f)) => WellFormed(f) && ds == Flatten(f)
    case (At(p), In(n)) => WellFormedNode(n) && Has(ds, p, Flat(n))
    case _ => false
  }

  /** Where the children of what `cur` points at begin. */
  function Inside(cur: Ref): nat {
    if cur.At? then cur.index + 1 else 0
  }

  lemma KidsLie(ds: seq<Descriptor>, cur: Ref, o: Owner)
    requires Stands(ds, cur, o)
    ensures WellFormed(o.Kids()) && Has(ds, Inside(cur), Flatten(o.Kids()))
  {
    match o
    case Top(_) =>
    case In(n) =>
      match n
      case File(_) =>
      case Map(d, kids) => HasConcat(ds, cur.index, [d], Flatten(kids));
      case Dir(d, kids, close) =>
        HasConcat(ds, cur.index, [d] + Flatten(kids), [close]);
        HasConcat(ds, cur.index, [d], Flatten(kids));
  }

  /** The `k`-th child lies at its position among the children, and the next one follows it. */
  lemma ChildStands(ds: seq<Descriptor>, cur: Ref, o: Owner, k: nat)
    requires Stands(ds, cur, o) && k < |o.Kids()|
    ensures Stands(ds, At(Inside(cur) + Pos(o.Kids(), k)), In(o.Kids()[k]))
    ensures Pos(o.Kids(), k + 1) == Pos(o.Kids(), k) + |Flat(o.Kids()[k])| <= |Flatten(o.Kids())|
  {
    hide Flatten, Flat, Addressable, IsStart, IsEnd, IsMap;
    var f := o.Kids();
    KidsLie(ds, cur, o);
    WellFormedAt(f, k);
    FlattenSplit(f, k);
    HasConcat(ds, Inside(cur), Flatten(f[..k]) + Flat(f[k]), Flatten(f[k + 1..]));
    HasConcat(ds, Inside(cur), Flatten(f[..k]), Flat(f[k]));
  }

  /** The end of the list or an `_END` marker, where the create guard accepts. */
  predicate AtClose(ds: seq<Descriptor>, i: nat) {
    i == |ds| || (i < |ds| && IsEnd(ds[i].name))
  }

  /**
   * Walking the children of the root or of a directory, the end of the list or the closing
   * marker is reached after the last child and not before.
   */
  lemma WalkEnds(ds: seq<Descriptor>, cur: Ref, o: Owner, k: nat)
    requires Stands(ds, cur, o) && k <= |o.Kids()| && (o.Top? || o.node.Dir?)
    ensures Inside(cur) + Pos(o.Kids(), k) <= |ds|
    ensures k < |o.Kids()| ==> !AtClose(ds, Inside(cur) + Pos(o.Kids(), k))
    ensures k == |o.Kids()| ==> Inside(cur) + Pos(o.Kids(), k) == Inside(cur) + |Flatten(o.Kids())|
    ensures k == |o.Kids()| && o.Top? ==> Inside(cur) + Pos(o.Kids(), k) == |ds|
    ensures k == |o.Kids()| && o.In? ==>
              Inside(cur) + Pos(o.Kids(), k) < |ds| && IsEnd(ds[Inside(cur) + Pos(o.Kids(), k)].name)
  {
    hide Flatten, Flat, Addressable, IsStart, IsEnd, IsMap;
    var f := o.Kids();
    if k < |f| {
      ChildStands(ds, cur, o, k);
      HeadOf(ds, Inside(cur) + Pos(f, k), f[k]);
      RolesDisjoint(f[k].d.name);
    } else {
      assert f[..k] == f;
      if o.In? {
        CloseOf(ds, cur.index, o.node);
      }
    }
  }

  lemma CloseOf(ds: seq<Descriptor>, i: nat, n: Node)
    requires n.Dir? && Has(ds, i, Flat(n))
    ensures i + 1 + |Flatten(n.kids)| < |ds| && ds[i + 1 + |Flatten(n.kids)|] == n.close
  {
    assert ds[i + 1 + |Flatten(n.kids)|] == ds[i..i + |Flat(n)|][1 + |Flatten(n.kids)|];
  }

  // ---------- positions of paths ----------

  /** Index, within the flattened children of `o`, of the node that `cs` denotes. */
  function Spot(o: Owner, cs: Path): nat
    requires cs != [] && Find(o, cs).Some?
    decreases |cs|
  {
    var f := o.Kids();
    var k := First(f, cs[0]).value;
    Pos(f, k) + if |cs| == 1 then 0 else 1 + Spot(In(f[k]), cs[1..])
  }

  /** The pointer for the node that `cs` denotes, starting at `cur`, which points at `o`. */
  function Denotes(o: Owner, cur: Ref, cs: Path): Ref {
    match Find(o, cs)
    case None => Null
    case Some(_) => if cs == [] then cur else At(Inside(cur) + Spot(o, cs))
  }

  /** The pointer computed for a path points at the node that tree lookup finds. */
  lemma {:induction false} DenotesFind(ds: seq<Descriptor>, o: Owner, cur: Ref, cs: Path)
    requires Stands(ds, cur, o)
    ensures match Find(o, cs)
            case None => Denotes(o, cur, cs) == Null
            case Some(o') => Stands(ds, Denotes(o, cur, cs), o')
    decreases |cs|
  {
    hide Stands, Flatten, Flat, Pos, First;
    if cs != [] && First(o.Kids(), cs[0]).Some? {
      var k := First(o.Kids(), cs[0]).value;
      ChildStands(ds, cur, o, k);
      DenotesFind(ds, In(o.Kids()[k]), At(Inside(cur) + Pos(o.Kids(), k)), cs[1..]);
    }
  }

  /** Index at which the flattened directory at `h` ends. */
  function EndPos(f: seq<Node>, h: Path): (p: nat)
    requires IsHome(f, h)
    ensures p <= |Flatten(f)|
    decreases |h|
  {
    if h == [] then |Flatten(f)|
    else
      var k := First(f, h[0]).value;
      FlattenSplit(f, k);
      Pos(f, k) + 1 + EndPos(f[k].kids, h[1..])
  }

  /**
   * The insertion index for creating `cs` below `o`, to which `cur` points; `open` tells
   * whether the list position after a map `o` is an end.
   */
  function Lands(o: Owner, cur: Ref, open: bool, cs: Path): Option<nat> {
    if cs == [] || o.IsFile() then None
    else if o.In? && o.node.Map? then
      if |cs| == 1 && Fresh(o.Kids(), cs[0]) && open then Some(Inside(cur) + |Flatten(o.Kids())|) else None
    else
      match Home(o.Kids(), cs)
      case None => None
      case Some(h) => Some(Inside(cur) + EndPos(o.Kids(), h))
  }

  /** Descending into the child that matches leaves the insertion index unchanged. */
  lemma LandsStep(o: Owner, cur: Ref, open: bool, cs: Path, k: nat)
    requires cs != [] && First(o.Kids(), cs[0]) == Some(k)
    requires o.In? ==> WellFormedNode(o.node)
    ensures Lands(o, cur, open, cs) ==
            Lands(In(o.Kids()[k]), At(Inside(cur) + Pos(o.Kids(), k)), k == |o.Kids()| - 1, cs[1..])
  {
    hide First, Flatten, Pos, Addressable, IsMap, IsStart, IsEnd, WellFormed, EndPos;
    if o.Kids()[k].Map? && k == |o.Kids()| - 1 {
      LastMapEnds(o.Kids());
    }
    EndPosStep(o.Kids(), k, cs[0]);
  }

  lemma EndPosStep(f: seq<Node>, k: nat, c: seq<byte>)
    requires First(f, c) == Some(k)
    ensures EndPos(f, []) == |Flatten(f)|
    ensures f[k].Dir? ==> forall h | IsHome(f[k].kids, h) && IsHome(f, [c] + h) ::
              EndPos(f, [c] + h) == Pos(f, k) + 1 + EndPos(f[k].kids, h)
  {
    hide First, Flatten, Pos;
    if f[k].Dir? {
      forall h | IsHome(f[k].kids, h) && IsHome(f, [c] + h)
        ensures EndPos(f, [c] + h) == Pos(f, k) + 1 + EndPos(f[k].kids, h)
      {
        assert ([c] + h)[1..] == h;
      }
    }
  }

  lemma LastMapEnds(f: seq<Node>)
    requires f != [] && f[|f| - 1].Map?
    ensures Pos(f, |f| - 1) + 1 + |Flatten(f[|f| - 1].kids)| == |Flatten(f)|
  {
    hide Flatten;
    FlattenSplit(f, |f| - 1);
    assert f[..|f|] == f;
  }

  // ---------- list edits ----------

  /** `s` with `xs` inserted before its `i`-th element. */
  function Insert<T>(s: seq<T>, i: nat, xs: seq<T>): seq<T>
    requires i <= |s|
  {
    s[..i] + xs + s[i..]
  }

  lemma InsertInside<T>(pre: seq<T>, mid: seq<T>, post: seq<T>, i: nat, xs: seq<T>)
    requires i <= |mid|
    ensures pre + Insert(mid, i, xs) + post == Insert(pre + mid + post, |pre| + i, xs)
  {
    var s := pre + mid + post;
    assert s[..|pre| + i] == pre + mid[..i];
    assert s[|pre| + i..] == mid[i..] + post;
  }

  lemma UpdateInside<T>(pre: seq<T>, mid: seq<T>, post: seq<T>, i: nat, x: T)
    requires i < |mid|
    ensures pre + mid[i := x] + post == (pre + mid + post)[|pre| + i := x]
  {
  }

  /** An insertion inside one tree is an insertion in the whole list. */
  lemma TreeInsert(f: seq<Node>, k: nat, m: Node, i: nat, xs: seq<Descriptor>)
    requires k < |f| && i <= |Flat(f[k])| && Flat(m) == Insert(Flat(f[k]), i, xs)
    ensures Pos(f, k) + i <= |Flatten(f)|
    ensures Flatten(f[k := m]) == Insert(Flatten(f), Pos(f, k) + i, xs)
  {
    hide Flatten, Flat;
    FlattenSplit(f, k);
    FlattenSplit(f[k := m], k);
    assert f[k := m][..k] == f[..k] && f[k := m][k + 1..] == f[k + 1..];
    InsertInside(Flatten(f[..k]), Flat(f[k]), Flatten(f[k + 1..]), i, xs);
  }

  /** An update inside one tree is an update in the whole list. */
  lemma TreeUpdate(f: seq<Node>, k: nat, m: Node, i: nat, d: Descriptor)
    requires k < |f| && i < |Flat(f[k])| && Flat(m) == Flat(f[k])[i := d]
    ensures Pos(f, k) + i < |Flatten(f)|
    ensures Flatten(f[k := m]) == Flatten(f)[Pos(f, k) + i := d]
  {
    hide Flatten, Flat;
    FlattenSplit(f, k);
    FlattenSplit(f[k := m], k);
    assert f[k := m][..k] == f[..k] && f[k := m][k + 1..] == f[k + 1..];
    UpdateInside(Flatten(f[..k]), Flat(f[k]), Flatten(f[k + 1..]), i, d);
  }

  /** Appending in the tree is inserting in the list, at the end of the directory. */
  lemma {:induction false} AppendIsInsert(f: seq<Node>, h: Path, n: Node)
    requires IsHome(f, h)
    ensures Flatten(AppendAt(f, h, n)) == Insert(Flatten(f), EndPos(f, h), Flat(n))
    decreases |h|
  {
    hide Flatten;
    if h == [] {
      FlattenConcat(f, [n]);
      FlattenOne(n);
    } else {
      var k := First(f, h[0]).value;
      var kids, e := f[k].kids, EndPos(f[k].kids, h[1..]);
      AppendIsInsert(kids, h[1..], n);
      InsertInside([f[k].d], Flatten(kids), [f[k].close], e, Flat(n));
      TreeInsert(f, k, AppendAt(f, h, n)[k], 1 + e, Flat(n));
    }
  }

  /** Rewriting a file's descriptor in the tree is rewriting one element of the list. */
  lemma {:induction false} SetIsUpdate(f: seq<Node>, cs: Path, d: Descriptor)
    requires IsFileAt(f, cs)
    ensures Spot(Top(f), cs) < |Flatten(f)|
    ensures Flatten(SetAt(f, cs, d)) == Flatten(f)[Spot(Top(f), cs) := d]
    decreases |cs|
  {
    hide Flatten;
    var k := First(f, cs[0]).value;
    FindBelow(f, k, cs);
    if |cs| == 1 {
      TreeUpdate(f, k, File(d), 0, d);
    } else {
      SetIsUpdate(f[k].kids, cs[1..], d);
      var i := Spot(Top(f[k].kids), cs[1..]);
      assert Spot(In(f[k]), cs[1..]) == i;
      UpdateInside([f[k].d], Flatten(f[k].kids), if f[k].Dir? then [f[k].close] else [], i, d);
      TreeUpdate(f, k, SetAt(f, cs, d)[k], 1 + i, d);
    }
  }
}
