/** Running the library on a list of operations, and opening its file again. */
module Session {
  import opened Bytes
  import opened Forest
  import opened WadImage
  import opened Runs
  import opened Wad

  /** An operation never empties the tree. */
  lemma StepNotEmpty(img: Image, op: Op)
    requires img.tree != []
    ensures Step(img, op).tree != []
  {
  }

  lemma FlattenNotEmpty(f: seq<Node>)
    ensures Flatten(f) == [] <==> f == []
  {
  }

  method Perform(wad: Wad, op: Op)
    requires wad.Valid() && !wad.NoData() && Small(Step(wad.Abs(), op))
    requires op.WriteOp? ==> -0x8000_0000 <= op.offset < 0x8000_0000
    modifies wad
    ensures wad.Valid() && !wad.NoData() && wad.Abs() == Step(old(wad.Abs()), op)
  {
    FlattenNotEmpty(wad.tree);
    if wad.descriptors != [] {
      StepNotEmpty(wad.Abs(), op);
    }
    match op {
      case CreateOp(path, PlainFile) => wad.CreateFile(path);
      case CreateOp(path, Directory) => wad.CreateDirectory(path);
      case WriteOp(path, buffer, offset) => var n := wad.WriteToFile(path, buffer, offset);
    }
    FlattenNotEmpty(wad.tree);
  }

  /**
   * After any sequence of operations a second `loadWad` of the file yields an object with
   * the same magic, list offset and descriptor list, although creates rewrite only the tail
   * of the list and writes overwrite it.
   */
  method PerformAndReload(wad: Wad, ops: seq<Op>, memory: seq<byte>) returns (again: Wad)
    requires wad.Valid() && !wad.NoData() && Fits(wad.Abs(), ops) && |memory| == 12
    requires forall i | 0 <= i < |ops| && ops[i].WriteOp? :: -0x8000_0000 <= ops[i].offset < 0x8000_0000
    modifies wad
    ensures wad.Valid() && wad.Abs() == Run(old(wad.Abs()), ops)
    ensures fresh(again) && again.Valid() && again.Abs() == wad.Abs()
    ensures again.magic == wad.magic && again.doffset == wad.doffset && again.descriptors == wad.descriptors
  {
    ghost var start := wad.Abs();
    for i := 0 to |ops|
      invariant wad.Valid() && !wad.NoData() && Fits(wad.Abs(), ops[i..])
      invariant Run(wad.Abs(), ops[i..]) == Run(start, ops)
    {
      assert ops[i..][0] == ops[i] && ops[i..][1..] == ops[i + 1..];
      Perform(wad, ops[i]);
    }
    again := new Wad.LoadWad(wad.file, memory, wad.emptyDataIsNull);
  }
}
