/** Reading the tree back off a descriptor list, with the scan that the library walks it by. */
module Rebuild {
  import opened Names
  import opened Paths
  import opened Forest

  lemma {:induction false} ScanBound(ds: seq<Descriptor>, i: nat, depth: int)
    ensures Scan(ds, i, depth).Some? ==> i < Scan(ds, i, depth).value <= |ds|
    decreases if i < |ds| then |ds| - i else 0
  {
    hide IsStart, IsEnd, IsMap;
    if i < |ds| {
      var name := ds[i].name;
      var depth' := if IsStart(name) then depth + 1 else if IsEnd(name) then depth - 1 else depth;
      var i' := if !IsStart(name) && !IsEnd(name) && IsMap(name) then i + 11 else i + 1;
      ScanBound(ds, i', depth');
    }
  }

  /** The forest that a list flattens, if there is one: cut off one node's span after the other. */
  function Rebuild(ds: seq<Descriptor>): (r: Option<seq<Node>>)
    ensures r.Some? ==> WellFormed(r.value) && Flatten(r.value) == ds
    decreases |ds|, 1
  {
    if ds == [] then Some([])
    else
      ScanBound(ds, 0, 0);
      match Scan(ds, 0, 0)
      case None => None
      case Some(end) =>
        match (RebuildNode(ds[..end]), Rebuild(ds[end..]))
        case (Some(n), Some(rest)) =>
          assert ([n] + rest)[1..] == rest && ds == ds[..end] + ds[end..];
          Some([n] + rest)
        case _ => None
  }

  /** The node with this span, if there is one. */
  function RebuildNode(span: seq<Descriptor>): (r: Option<Node>)
    requires span != []
    ensures r.Some? ==> WellFormedNode(r.value) && Flat(r.value) == span
    decreases |span|, 0
  {
    var d, last := span[0], |span| - 1;
    var n :=
      if IsStart(d.name) then
        if last == 0 then None
        else match Rebuild(span[1..last])
          case None => None
          case Some(kids) =>
            assert span == [d] + span[1..last] + [span[last]];
            Some(Dir(d, kids, span[last]))
      else if IsMap(d.name) then
        match Rebuild(span[1..])
        case None => None
        case Some(kids) =>
          assert span == [d] + span[1..];
          Some(Map(d, kids))
      else if last == 0 then Some(File(d))
      else None;
    if n.Some? && WellFormedNode(n.value) then n else None
  }

  /**
   * Rebuilding a flattened forest gives the forest back. With the contract of `Rebuild`: a
   * list is the flattening of a well-formed forest exactly when `Rebuild` succeeds.
   */
  lemma {:induction false} RebuildFlatten(f: seq<Node>)
    requires WellFormed(f)
    ensures Rebuild(Flatten(f)) == Some(f)
    decreases f, 1
  {
    hide WellFormedNode, Scan, RebuildNode;
    if f != [] {
      var ds, n := Flatten(f), |Flat(f[0])|;
      SkipNode(ds, 0, 0, f[0]);
      assert ds[..n] == Flat(f[0]) && ds[n..] == Flatten(f[1..]);
      RebuildFlat(f[0]);
      RebuildFlatten(f[1..]);
      assert f == [f[0]] + f[1..];
    }
  }

  lemma {:induction false} RebuildFlat(n: Node)
    requires WellFormedNode(n)
    ensures RebuildNode(Flat(n)) == Some(n)
    decreases n, 0
  {
    hide Rebuild, Addressable, IsStart, IsEnd, IsMap, Flatten;
    RolesDisjoint(n.d.name);
    var span, last := Flat(n), |Flat(n)| - 1;
    match n
    case File(_) =>
    case Map(_, kids) =>
      assert span[1..] == Flatten(kids);
      RebuildFlatten(kids);
    case Dir(_, kids, close) =>
      assert span[1..last] == Flatten(kids) && span[last] == close;
      RebuildFlatten(kids);
  }

  /** A list is the flattening of at most one well-formed forest. */
  lemma FlattenInjective(f: seq<Node>, g: seq<Node>)
    requires WellFormed(f) && WellFormed(g) && Flatten(f) == Flatten(g)
    ensures f == g
  {
    RebuildFlatten(f);
    RebuildFlatten(g);
  }
}
