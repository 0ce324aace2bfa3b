/** How a create moves the other nodes in the descriptor list. */
module Moves {
  import opened Paths
  import opened Forest
  import opened Lookup
  import opened Layout

  lemma PosMonotone(f: seq<Node>, j: nat, k: nat)
    requires j <= k <= |f|
    ensures Pos(f, j) <= Pos(f, k)
  {
    hide Flatten;
    FlattenConcat(f[..j], f[j..k]);
    assert f[..j] + f[j..k] == f[..k];
  }

  /** A path's node lies inside the span of the child through which the path leads. */
  lemma {:induction false} SpotInside(o: Owner, q: Path)
    requires q != [] && Find(o, q).Some?
    ensures var k := First(o.Kids(), q[0]).value;
            Pos(o.Kids(), k) <= Spot(o, q) < Pos(o.Kids(), k + 1) <= |Flatten(o.Kids())|
    decreases |q|
  {
    hide Flatten, First;
    var f, k := o.Kids(), First(o.Kids(), q[0]).value;
    FlattenSplit(f, k);
    if |q| > 1 {
      SpotInside(In(f[k]), q[1..]);
      assert |Flat(f[k])| >= 1 + |Flatten(f[k].Kids())| || f[k].File?;
      NoSpotInFile(f[k], q[1..]);
    }
  }

  lemma NoSpotInFile(n: Node, q: Path)
    requires q != [] && Find(In(n), q).Some?
    ensures !n.File?
  {
  }

  /** The node at `q` moves by the length of the inserted descriptors when it lies behind them. */
  lemma {:induction false} SpotAfterAppend(f: seq<Node>, h: Path, n: Node, q: Path)
    requires IsHome(f, h) && q != [] && Find(Top(f), q).Some?
    ensures Find(Top(AppendAt(f, h, n)), q).Some?
    ensures Spot(Top(AppendAt(f, h, n)), q) ==
            Spot(Top(f), q) + if Spot(Top(f), q) >= EndPos(f, h) then |Flat(n)| else 0
    decreases |h|, 1
  {
    hide Flatten, First;
    var g, j := AppendAt(f, h, n), First(f, q[0]).value;
    SpotInside(Top(f), q);
    if h == [] {
      FirstAppend(f, n, q[0]);
      assert g[..j] == f[..j] && g[j] == f[j];
    } else {
      var k := First(f, h[0]).value;
      FirstUpdate(f, k, g[k], q[0]);
      if j < k {
        assert g[..j] == f[..j] && g[j] == f[j];
        PosMonotone(f, j + 1, k);
      } else if j == k {
        assert g[..k] == f[..k];
        SpotAfterStep(f, h, n, q);
      } else {
        PosMonotone(f, k + 1, j);
        PosMoves(f, h, n, j);
        FlattenSplit(f, k);
        assert g[j] == f[j];
      }
    }
  }

  /** The case of `SpotAfterAppend` in which `q` enters the directory that `h` enters. */
  lemma {:induction false} SpotAfterStep(f: seq<Node>, h: Path, n: Node, q: Path)
    requires IsHome(f, h) && h != [] && q != [] && Find(Top(f), q).Some? && First(f, q[0]) == First(f, h[0])
    requires First(AppendAt(f, h, n), q[0]) == First(f, h[0])
    requires var k := First(f, h[0]).value; AppendAt(f, h, n)[..k] == f[..k]
    ensures Find(Top(AppendAt(f, h, n)), q).Some?
    ensures Spot(Top(AppendAt(f, h, n)), q) ==
            Spot(Top(f), q) + if Spot(Top(f), q) >= EndPos(f, h) then |Flat(n)| else 0
    decreases |h|, 0
  {
    hide Flatten, First;
    var g, k := AppendAt(f, h, n), First(f, h[0]).value;
    FindBelow(f, k, q);
    FindBelow(g, k, q);
    if |q| > 1 {
      SpotAfterAppend(f[k].kids, h[1..], n, q[1..]);
      assert Spot(In(f[k]), q[1..]) == Spot(Top(f[k].kids), q[1..]);
      assert Spot(In(g[k]), q[1..]) == Spot(Top(g[k].kids), q[1..]);
    }
  }

  /** Trees behind the one that takes the node move by its length. */
  lemma PosMoves(f: seq<Node>, h: Path, n: Node, j: nat)
    requires IsHome(f, h) && h != [] && First(f, h[0]).value < j < |f|
    ensures Pos(AppendAt(f, h, n), j) == Pos(f, j) + |Flat(n)|
  {
    hide Flatten;
    var g, k := AppendAt(f, h, n), First(f, h[0]).value;
    AppendIsInsert(f[k].kids, h[1..], n);
    FlattenSplit(f[..j], k);
    FlattenSplit(g[..j], k);
    assert f[..j][..k] == g[..j][..k] && f[..j][k + 1..] == g[..j][k + 1..];
  }

  /** The pointer `r` after `length` descriptors were inserted at `from`. */
  function Shifted(r: Ref, from: nat, length: nat): Ref {
    if r.At? && r.index >= from then At(r.index + length) else r
  }

  /** After a create every path that resolved resolves as before, apart from the index shift. */
  lemma DenotesAfterAppend(f: seq<Node>, h: Path, n: Node, q: Path)
    requires IsHome(f, h) && Find(Top(f), q).Some?
    ensures Denotes(Top(AppendAt(f, h, n)), Root, q) == Shifted(Denotes(Top(f), Root, q), EndPos(f, h), |Flat(n)|)
  {
    if q != [] {
      SpotAfterAppend(f, h, n, q);
    }
  }
}
