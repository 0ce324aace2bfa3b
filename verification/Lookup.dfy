/**
 * Path lookup and growth on trees: what `resolve` means, where a created node lands, and
 * what every path sees afterwards.
 */
module Lookup {
  import opened Bytes
  import opened Paths
  import opened Forest

  /** What a path denotes: the root, or a node of the tree. */
  datatype Owner = Top(forest: seq<Node>) | In(node: Node) {
    function Kids(): seq<Node> {
      if Top? then forest else node.Kids()
    }

    predicate IsFile() {
      In? && node.File?
    }
  }

  /** Index of the first of several siblings labelled `c`. */
  function First(f: seq<Node>, c: seq<byte>): (r: Option<nat>)
    ensures r.Some? ==> r.value < |f| && f[r.value].Label() == c
  {
    if f == [] then None
    else if f[0].Label() == c then Some(0)
    else match First(f[1..], c)
      case None => None
      case Some(k) => Some(k + 1)
  }

  /** Component-by-component lookup, taking the first match among siblings. */
  function Find(o: Owner, cs: Path): Option<Owner>
    decreases |cs|
  {
    if cs == [] then Some(o)
    else match First(o.Kids(), cs[0])
      case None => None
      case Some(k) => Find(In(o.Kids()[k]), cs[1..])
  }

  lemma {:induction false} FirstIs(f: seq<Node>, c: seq<byte>, k: nat)
    requires k <= |f| && (k < |f| ==> f[k].Label() == c)
    requires forall j | 0 <= j < k :: f[j].Label() != c
    ensures First(f, c) == if k < |f| then Some(k) else None
  {
    if k > 0 {
      FirstIs(f[1..], c, k - 1);
    }
  }

  lemma {:induction false} FirstAppend(f: seq<Node>, n: Node, c: seq<byte>)
    ensures First(f + [n], c) == if First(f, c) == None && n.Label() == c then Some(|f|) else First(f, c)
  {
    if f == [] {
      assert f + [n] == [n];
    } else {
      assert (f + [n])[1..] == f[1..] + [n];
      FirstAppend(f[1..], n, c);
    }
  }

  lemma {:induction false} FirstUpdate(f: seq<Node>, k: nat, m: Node, c: seq<byte>)
    requires k < |f| && m.Label() == f[k].Label()
    ensures First(f[k := m], c) == First(f, c)
  {
    if k == 0 {
      assert f[k := m][1..] == f[1..];
    } else {
      assert f[k := m][1..] == f[1..][k - 1 := m];
      FirstUpdate(f[1..], k - 1, m, c);
    }
  }

  /** Below its first component a path sees only the kids of what it enters. */
  lemma FindBelow(f: seq<Node>, k: nat, p: Path)
    requires p != [] && First(f, p[0]) == Some(k)
    ensures Find(Top(f), p) == Find(In(f[k]), p[1..])
    ensures |p| > 1 ==> Find(Top(f), p) == Find(Top(f[k].Kids()), p[1..])
  {
    if |p| > 1 {
      assert Find(In(f[k]), p[1..]) == Find(Top(f[k].Kids()), p[1..]);
    }
  }

  // ---------- what a path shows ----------

  /** A directory or map shows the labels of its children, a file shows its descriptor. */
  datatype Item = Folder(listing: seq<seq<byte>>) | Content(d: Descriptor)

  function Labels(f: seq<Node>): (r: seq<seq<byte>>)
    ensures |r| == |f|
  {
    seq(|f|, i requires 0 <= i < |f| => f[i].Label())
  }

  function ItemOf(o: Owner): Item {
    if o.IsFile() then Content(o.node.d) else Folder(Labels(o.Kids()))
  }

  function Show(f: seq<Node>, cs: Path): Option<Item> {
    match Find(Top(f), cs)
    case None => None
    case Some(o) => Some(ItemOf(o))
  }

  lemma ShowBelow(f: seq<Node>, k: nat, cs: Path)
    requires cs != [] && First(f, cs[0]) == Some(k)
    ensures |cs| > 1 || !f[k].File? ==> Show(f, cs) == Show(f[k].Kids(), cs[1..])
    ensures |cs| == 1 && f[k].File? ==> Show(f, cs) == Some(Content(f[k].d))
  {
    FindBelow(f, k, cs);
  }

  // ---------- growth ----------

  /** `h` leads from `f` through directories only. */
  predicate IsHome(f: seq<Node>, h: Path)
    decreases |h|
  {
    h == [] ||
    match First(f, h[0])
    case None => false
    case Some(k) => f[k].Dir? && IsHome(f[k].kids, h[1..])
  }

  /** `f` with `n` as a new last child of the directory at `h`. */
  function AppendAt(f: seq<Node>, h: Path, n: Node): seq<Node>
    requires IsHome(f, h)
    decreases |h|
  {
    if h == [] then f + [n]
    else
      var k := First(f, h[0]).value;
      f[k := f[k].(kids := AppendAt(f[k].kids, h[1..], n))]
  }

  /** What the directory at `h` lists. */
  function HomeListing(f: seq<Node>, h: Path): (r: seq<seq<byte>>)
    requires IsHome(f, h)
    ensures Show(f, h) == Some(Folder(r))
    decreases |h|
  {
    if h == [] then Labels(f)
    else
      var k := First(f, h[0]).value;
      ShowBelow(f, k, h);
      HomeListing(f[k].kids, h[1..])
  }

  /** The case of `ShowAfterAppend` in which the node joins `f` itself. */
  lemma ShowAfterJoin(f: seq<Node>, n: Node, q: Path)
    requires n.Kids() == []
    ensures Show(f + [n], q) ==
            if q == [] then Some(Folder(Labels(f) + [n.Label()]))
            else if q == [n.Label()] && Show(f, q) == None then Some(ItemOf(In(n)))
            else Show(f, q)
  {
    var g := f + [n];
    if q == [] {
      assert Labels(g) == Labels(f) + [n.Label()];
    } else {
      FirstAppend(f, n, q[0]);
      assert q == [q[0]] + q[1..];
      match First(f, q[0])
      case Some(k) =>
        assert Find(Top(g), q) == Find(In(g[k]), q[1..]) && g[k] == f[k];
      case None =>
        if n.Label() == q[0] {
          assert Find(Top(g), q) == Find(In(n), q[1..]);
        }
    }
  }

  /**
   * After appending a childless node every path shows what it showed, except that the
   * directory lists one more label and that label, if it was free, now leads to the node.
   */
  lemma {:induction false} ShowAfterAppend(f: seq<Node>, h: Path, n: Node, q: Path)
    requires IsHome(f, h) && n.Kids() == []
    ensures Show(AppendAt(f, h, n), q) ==
            if q == h then Some(Folder(HomeListing(f, h) + [n.Label()]))
            else if q == h + [n.Label()] && Show(f, q) == None then Some(ItemOf(In(n)))
            else Show(f, q)
    decreases |h|
  {
    if h == [] {
      ShowAfterJoin(f, n, q);
      assert h + [n.Label()] == [n.Label()];
    } else {
      var g := AppendAt(f, h, n);
      var k := First(f, h[0]).value;
      if q == [] {
        assert Labels(g) == Labels(f);
      } else {
        ShowAfterAppend(f[k].kids, h[1..], n, q[1..]);
        ShowAfterStep(f, k, g[k], q);
        SamePath(q, h);
        SamePath(q, h + [n.Label()]);
        assert (h + [n.Label()])[1..] == h[1..] + [n.Label()];
      }
    }
  }

  lemma SamePath(q: Path, h: Path)
    requires q != [] && h != []
    ensures q == h <==> q[0] == h[0] && q[1..] == h[1..]
  {
    assert h == [h[0]] + h[1..] && q == [q[0]] + q[1..];
  }

  /** Replacing the kids of one tree changes only what lies below that tree. */
  lemma ShowAfterStep(f: seq<Node>, k: nat, m: Node, q: Path)
    requires k < |f| && m.Label() == f[k].Label() && m.File? == f[k].File? && q != []
    ensures First(f, q[0]) == Some(k) && (|q| > 1 || !m.File?) ==>
              Show(f[k := m], q) == Show(m.Kids(), q[1..]) && Show(f, q) == Show(f[k].Kids(), q[1..])
    ensures First(f, q[0]) != Some(k) ==> Show(f[k := m], q) == Show(f, q)
  {
    var g := f[k := m];
    FirstUpdate(f, k, m, q[0]);
    match First(f, q[0])
    case None =>
    case Some(j) =>
      if j == k {
        ShowBelow(f, k, q);
        ShowBelow(g, k, q);
      } else {
        assert Find(Top(g), q) == Find(In(g[j]), q[1..]) && g[j] == f[j];
      }
  }

  // ---------- unique sibling names ----------

  /** Siblings have pairwise different labels, at every level. */
  predicate Unique(f: seq<Node>) {
    f == [] || (First(f[1..], f[0].Label()) == None && (f[0].File? || Unique(f[0].kids)) && Unique(f[1..]))
  }

  /** With unique labels every node is the first, hence the only, match of its own label. */
  lemma {:induction false} UniqueFirst(f: seq<Node>, k: nat)
    requires Unique(f) && k < |f|
    ensures First(f, f[k].Label()) == Some(k) && Unique(f[k].Kids())
  {
    if k > 0 {
      UniqueFirst(f[1..], k - 1);
    }
  }

  lemma {:induction false} UniqueAppend(f: seq<Node>, n: Node)
    requires n.Kids() == []
    ensures Unique(f + [n]) <==> Unique(f) && First(f, n.Label()) == None
  {
    if f == [] {
      assert f + [n] == [n];
    } else {
      assert (f + [n])[1..] == f[1..] + [n];
      FirstAppend(f[1..], n, f[0].Label());
      UniqueAppend(f[1..], n);
    }
  }

  /** Replacing one tree by one of the same label matters as far as its kids do. */
  lemma {:induction false} UniqueUpdate(f: seq<Node>, k: nat, m: Node, kept: bool)
    requires k < |f| && m.Label() == f[k].Label()
    requires Unique(m.Kids()) <==> Unique(f[k].Kids()) && kept
    ensures Unique(f[k := m]) <==> Unique(f) && kept
  {
    if k == 0 {
      assert f[k := m][1..] == f[1..];
    } else {
      assert f[k := m][1..] == f[1..][k - 1 := m];
      FirstUpdate(f[1..], k - 1, m, f[0].Label());
      UniqueUpdate(f[1..], k - 1, m, kept);
    }
  }

  /**
   * Sibling labels are unique after an append exactly when they were before and the label
   * was free in its directory; what is lost never comes back.
   */
  lemma {:induction false} UniqueAfterAppend(f: seq<Node>, h: Path, n: Node)
    requires IsHome(f, h) && n.Kids() == []
    ensures Unique(AppendAt(f, h, n)) <==> Unique(f) && Show(f, h + [n.Label()]) == None
    decreases |h|
  {
    var c := h + [n.Label()];
    if h == [] {
      UniqueAppend(f, n);
      assert Find(Top(f), c) == match First(f, c[0]) case None => None case Some(k) => Some(In(f[k])) by {
        assert c[1..] == [];
      }
    } else {
      var k := First(f, h[0]).value;
      UniqueAfterAppend(f[k].kids, h[1..], n);
      UniqueUpdate(f, k, AppendAt(f, h, n)[k], Show(f[k].kids, h[1..] + [n.Label()]) == None);
      ShowBelow(f, k, c);
      assert c[1..] == h[1..] + [n.Label()];
    }
  }
}
