/**
 * The tree a descriptor list stands for, the list a tree flattens to, and the scan
 * (`Wad::skip`) that finds the end of a node's span.
 */
module Forest {
  import opened Bytes
  import opened Names
  import opened Paths

  datatype Descriptor = Descriptor(offset: nat, size: nat, name: Name)

  /**
   * A file is one descriptor, a map is a marker and its ten lumps, a directory is what
   * stands between its `_START` and its `_END` marker.
   */
  datatype Node =
    | File(d: Descriptor)
    | Map(d: Descriptor, kids: seq<Node>)
    | Dir(d: Descriptor, kids: seq<Node>, close: Descriptor)
  {
    function Kids(): seq<Node> {
      if File? then [] else kids
    }

    function Label(): seq<byte> {
      Names.Label(d.name)
    }
  }

  predicate WellFormedNode(n: Node) {
    Addressable(n.d.name) &&
    match n
    case File(d) => !IsStart(d.name) && !IsMap(d.name) && !IsEnd(d.name)
    case Map(d, kids) => IsMap(d.name) && |kids| == 10 && WellFormed(kids) && forall i | 0 <= i < 10 :: kids[i].File?
    case Dir(d, kids, close) => IsStart(d.name) && IsEnd(close.name) && WellFormed(kids)
  }

  predicate WellFormed(f: seq<Node>) {
    f == [] || (WellFormedNode(f[0]) && WellFormed(f[1..]))
  }

  lemma {:induction false} WellFormedAt(f: seq<Node>, k: nat)
    requires WellFormed(f) && k < |f|
    ensures WellFormedNode(f[k])
    decreases |f|
  {
    if k > 0 {
      WellFormedAt(f[1..], k - 1);
    }
  }

  lemma {:induction false} WellFormedConcat(f: seq<Node>, g: seq<Node>)
    ensures WellFormed(f + g) <==> WellFormed(f) && WellFormed(g)
    decreases |f|
  {
    if f == [] {
      assert f + g == g;
    } else {
      assert (f + g)[1..] == f[1..] + g;
      WellFormedConcat(f[1..], g);
    }
  }

  lemma {:induction false} WellFormedUpdate(f: seq<Node>, k: nat, n: Node)
    requires WellFormed(f) && k < |f|
    ensures WellFormed(f[k := n]) <==> WellFormedNode(n)
    decreases |f|
  {
    if k == 0 {
      assert f[k := n][1..] == f[1..];
    } else {
      assert f[k := n][1..] == f[1..][k - 1 := n];
      WellFormedUpdate(f[1..], k - 1, n);
    }
  }

  function Flat(n: Node): (ds: seq<Descriptor>)
    ensures |ds| >= 1 && ds[0] == n.d
  {
    match n
    case File(d) => [d]
    case Map(d, kids) => [d] + Flatten(kids)
    case Dir(d, kids, close) => [d] + Flatten(kids) + [close]
  }

  function Flatten(f: seq<Node>): seq<Descriptor> {
    if f == [] then [] else Flat(f[0]) + Flatten(f[1..])
  }

  lemma {:induction false} FlattenConcat(f: seq<Node>, g: seq<Node>)
    ensures Flatten(f + g) == Flatten(f) + Flatten(g)
    decreases |f|
  {
    if f == [] {
      assert f + g == g;
    } else {
      assert (f + g)[1..] == f[1..] + g;
      FlattenConcat(f[1..], g);
    }
  }

  lemma FlattenOne(n: Node)
    ensures Flatten([n]) == Flat(n)
  {
    assert Flatten([n]) == Flat(n) + Flatten([]);
  }

  /** Where the `k`-th tree of `f` begins in `Flatten(f)`. */
  function Pos(f: seq<Node>, k: nat): nat
    requires k <= |f|
  {
    |Flatten(f[..k])|
  }

  lemma PosEnds(f: seq<Node>)
    ensures Pos(f, 0) == 0 && Pos(f, |f|) == |Flatten(f)|
  {
    assert f[..|f|] == f;
  }

  lemma FlattenSplit(f: seq<Node>, k: nat)
    requires k < |f|
    ensures Flatten(f) == Flatten(f[..k]) + Flat(f[k]) + Flatten(f[k + 1..])
    ensures Pos(f, k + 1) == Pos(f, k) + |Flat(f[k])| <= |Flatten(f)|
  {
    FlattenConcat(f[..k + 1], f[k + 1..]);
    FlattenConcat(f[..k], [f[k]]);
    FlattenOne(f[k]);
    assert f == f[..k + 1] + f[k + 1..];
    assert f[..k + 1] == f[..k] + [f[k]];
  }

  lemma {:induction false} FlattenFiles(f: seq<Node>)
    requires forall i | 0 <= i < |f| :: f[i].File?
    ensures |Flatten(f)| == |f|
    decreases |f|
  {
    if f != [] {
      FlattenFiles(f[1..]);
    }
  }

  // ---------- skip ----------

  /** `xs` lies in `ds` at `i`. */
  predicate Has<T(==)>(ds: seq<T>, i: nat, xs: seq<T>) {
    i + |xs| <= |ds| && ds[i..i + |xs|] == xs
  }

  lemma HasConcat<T>(ds: seq<T>, i: nat, xs: seq<T>, ys: seq<T>)
    requires Has(ds, i, xs + ys)
    ensures Has(ds, i, xs) && Has(ds, i + |xs|, ys)
  {
    var zs := ds[i..i + |xs + ys|];
    assert zs[..|xs|] == xs && zs[|xs|..] == ys;
    assert ds[i..i + |xs|] == zs[..|xs|];
    assert ds[i + |xs|..i + |xs| + |ys|] == zs[|xs|..];
  }

  /**
   * The scan of `Wad::skip` from `i` with `depth` directories open: the index at which it
   * stops, or `None` when it runs past the end of the list.
   */
  function Scan(ds: seq<Descriptor>, i: nat, depth: int): Option<nat>
    decreases if i < |ds| then |ds| - i else 0
  {
    if i >= |ds| then None
    else
      var name := ds[i].name;
      var depth' := if IsStart(name) then depth + 1 else if IsEnd(name) then depth - 1 else depth;
      var i' := if !IsStart(name) && !IsEnd(name) && IsMap(name) then i + 11 else i + 1;
      if depth' != 0 then Scan(ds, i', depth')
      else if i' <= |ds| then Some(i')
      else None
  }

  /**
   * From the first descriptor of a node the scan stops exactly one past the node's span,
   * whatever is nested inside; under an open directory it passes over the span unchanged.
   */
  lemma {:induction false} SkipNode(ds: seq<Descriptor>, i: nat, depth: nat, n: Node)
    requires WellFormedNode(n) && Has(ds, i, Flat(n))
    ensures depth == 0 ==> Scan(ds, i, 0) == Some(i + |Flat(n)|)
    ensures depth > 0 ==> Scan(ds, i, depth) == Scan(ds, i + |Flat(n)|, depth)
    decreases n, 0
  {
    hide Scan, IsStart, IsEnd, IsMap, Addressable;
    HeadOf(ds, i, n);
    ScanStep(ds, i, depth);
    RolesDisjoint(n.d.name);
    match n
    case File(_) =>
    case Map(d, kids) =>
      FlattenFiles(kids);
    case Dir(d, kids, close) =>
      HasConcat(ds, i, [d] + Flatten(kids), [close]);
      HasConcat(ds, i, [d], Flatten(kids));
      SkipForest(ds, i + 1, depth + 1, kids);
      ScanStep(ds, i + 1 + |Flatten(kids)|, depth + 1);
      RolesDisjoint(close.name);
  }

  lemma HeadOf(ds: seq<Descriptor>, i: nat, n: Node)
    requires Has(ds, i, Flat(n))
    ensures ds[i] == n.d
  {
    assert ds[i] == ds[i..i + |Flat(n)|][0];
  }

  /** One round of the scan, by the role of the descriptor it reads. */
  lemma ScanStep(ds: seq<Descriptor>, i: nat, depth: nat)
    requires i < |ds|
    ensures var name := ds[i].name;
            if IsStart(name) then Scan(ds, i, depth) == Scan(ds, i + 1, depth + 1)
            else if IsEnd(name) then depth == 1 ==> Scan(ds, i, depth) == Some(i + 1)
            else var i' := if IsMap(name) then i + 11 else i + 1;
              if depth > 0 then Scan(ds, i, depth) == Scan(ds, i', depth)
              else i' <= |ds| ==> Scan(ds, i, depth) == Some(i')
    ensures IsEnd(ds[i].name) && !IsStart(ds[i].name) && depth > 1 ==> Scan(ds, i, depth) == Scan(ds, i + 1, depth - 1)
  {
    hide IsStart, IsEnd, IsMap;
  }

  lemma {:induction false} SkipForest(ds: seq<Descriptor>, i: nat, depth: nat, f: seq<Node>)
    requires WellFormed(f) && Has(ds, i, Flatten(f)) && depth > 0
    ensures Scan(ds, i, depth) == Scan(ds, i + |Flatten(f)|, depth)
    decreases f, 1
  {
    hide Scan, IsStart, IsEnd, IsMap, Addressable;
    if f != [] {
      HasConcat(ds, i, Flat(f[0]), Flatten(f[1..]));
      SkipNode(ds, i, depth, f[0]);
      SkipForest(ds, i + |Flat(f[0])|, depth, f[1..]);
    }
  }
}
