/** Whole runs of creates and writes: what they keep, and what becomes of one file. */
module Runs {
  import opened Bytes
  import opened Paths
  import opened Forest
  import opened Lookup
  import opened Growth
  import opened WadImage
  import opened FileSystem

  datatype Op = CreateOp(path: seq<byte>, kind: Kind) | WriteOp(path: seq<byte>, buffer: seq<byte>, offset: int)

  function Step(img: Image, op: Op): Image {
    match op
    case CreateOp(path, kind) => Create(img, path, kind)
    case WriteOp(path, buffer, offset) => Write(img, path, buffer, offset).0
  }

  function Run(img: Image, ops: seq<Op>): Image
    decreases |ops|
  {
    if ops == [] then img else Run(Step(img, ops[0]), ops[1..])
  }

  /** Every image of the run stays below 2^31 bytes. */
  predicate Fits(img: Image, ops: seq<Op>)
    decreases |ops|
  {
    ops == [] || (Small(Step(img, ops[0])) && Fits(Step(img, ops[0]), ops[1..]))
  }

  lemma StepGood(img: Image, op: Op)
    requires Good(img) && Small(Step(img, op))
    ensures Good(Step(img, op)) && img.body <= Step(img, op).body && Step(img, op).magic == img.magic
  {
    match op
    case CreateOp(path, kind) => CreateGood(img, path, kind);
    case WriteOp(path, buffer, offset) => WriteGood(img, path, buffer, offset);
  }

  /** Well-formedness is an invariant of every run, and lump data is never overwritten. */
  lemma {:induction false} RunGood(img: Image, ops: seq<Op>)
    requires Good(img) && Fits(img, ops)
    ensures Good(Run(img, ops)) && img.body <= Run(img, ops).body && Run(img, ops).magic == img.magic
    decreases |ops|
  {
    if ops != [] {
      StepGood(img, ops[0]);
      RunGood(Step(img, ops[0]), ops[1..]);
    }
  }

  // ---------- nothing is lost ----------

  /** `e'` shows everything `e` showed: listings and contents only grow at their end. */
  predicate Extends(e: Entry, e': Entry) {
    match (e, e')
    case (Listing(a), Listing(b)) => a <= b
    case (Contents(a), Contents(b)) => a <= b
    case _ => false
  }

  lemma StepPersists(img: Image, op: Op, q: Path)
    requires Good(img) && View(img, q).Some?
    ensures View(Step(img, op), q).Some? && Extends(View(img, q).value, View(Step(img, op), q).value)
  {
    match op
    case CreateOp(path, kind) =>
      CreateView(img, path, kind, q);
    case WriteOp(path, buffer, offset) =>
      WriteView(img, path, buffer, offset, q);
  }

  /** Over any run, files keep their contents as a prefix and folders keep their names in order. */
  lemma {:induction false} RunPersists(img: Image, ops: seq<Op>, q: Path)
    requires Good(img) && Fits(img, ops) && View(img, q).Some?
    ensures View(Run(img, ops), q).Some? && Extends(View(img, q).value, View(Run(img, ops), q).value)
    decreases |ops|
  {
    if ops != [] {
      StepPersists(img, ops[0], q);
      StepGood(img, ops[0]);
      RunPersists(Step(img, ops[0]), ops[1..], q);
    }
  }

  // ---------- unique names ----------

  /** The name of a create, if it is accepted, is free in the directory where it lands. */
  predicate CleanCreate(img: Image, path: seq<byte>, kind: Kind) {
    match CreatePlan(img.tree, path, kind)
    case Refused => true
    case Planned(h, _) =>
      Parse(path).Some? && Parse(path).value != [] && View(img, h + [Last(Parse(path).value)]) == None
  }

  /** Every create of the run is clean when its turn comes. */
  predicate Clean(img: Image, ops: seq<Op>)
    decreases |ops|
  {
    ops == [] ||
    ((ops[0].CreateOp? ==> CleanCreate(img, ops[0].path, ops[0].kind)) && Clean(Step(img, ops[0]), ops[1..]))
  }

  lemma StepUnique(img: Image, op: Op)
    ensures Unique(Step(img, op).tree) <==>
            Unique(img.tree) && (op.CreateOp? ==> CleanCreate(img, op.path, op.kind))
  {
    hide Unique, View, Home, Components;
    match op
    case CreateOp(path, kind) =>
      if CreatePlan(img.tree, path, kind).Planned? {
        PlanNode(img.tree, path, kind);
        CreateUnique(img, path, kind);
      }
    case WriteOp(path, buffer, offset) => WriteUnique(img, path, buffer, offset);
  }

  /** Sibling names are unique after a run exactly when they were before it and every create was clean. */
  lemma {:induction false} RunUnique(img: Image, ops: seq<Op>)
    ensures Unique(Run(img, ops).tree) <==> Unique(img.tree) && Clean(img, ops)
    decreases |ops|
  {
    hide Unique, CleanCreate, Step;
    if ops != [] {
      StepUnique(img, ops[0]);
      RunUnique(Step(img, ops[0]), ops[1..]);
    }
  }

  /** No create of the run names a path inside a map. */
  predicate NoMapParents(img: Image, ops: seq<Op>)
    decreases |ops|
  {
    ops == [] ||
    ((ops[0].CreateOp? && Parse(ops[0].path).Some? && Parse(ops[0].path).value != []
      ==> !IsMapAt(img.tree, Parent(Parse(ops[0].path).value)))
     && NoMapParents(Step(img, ops[0]), ops[1..]))
  }

  /** A run that creates nothing inside maps is clean. */
  lemma {:induction false} NoMapParentsClean(img: Image, ops: seq<Op>)
    requires Good(img) && Fits(img, ops) && NoMapParents(img, ops)
    ensures Clean(img, ops)
    decreases |ops|
  {
    hide CleanCreate, Good, Parse;
    if ops != [] {
      StepGood(img, ops[0]);
      if ops[0].CreateOp? {
        OutsideMapsClean(img, ops[0].path, ops[0].kind);
      }
      NoMapParentsClean(Step(img, ops[0]), ops[1..]);
    }
  }

  lemma OutsideMapsClean(img: Image, path: seq<byte>, kind: Kind)
    requires Good(img)
    requires Parse(path).Some? && Parse(path).value != [] ==> !IsMapAt(img.tree, Parent(Parse(path).value))
    ensures CleanCreate(img, path, kind)
  {
    hide Home, Find, First, WellFormed, Flatten, MakeNode, Show, Components, HomeListing, AppendAt;
    if CreatePlan(img.tree, path, kind).Planned? {
      PlanNode(img.tree, path, kind);
      var cs := Parse(path).value;
      assert cs == Parent(cs) + [Last(cs)];
      if IsDirectoryAt(img.tree, Parent(cs)) {
        CreateUnderDirectory(img, path, kind);
      } else {
        CreateElsewhere(img, path, kind);
      }
    }
  }

  // ---------- writing one file in chunks ----------

  /** Creates, and writes that continue the file at `cs` from length `len`. */
  predicate Chunks(ops: seq<Op>, cs: Path, len: nat) {
    ops == [] ||
    match ops[0]
    case CreateOp(_, _) => Chunks(ops[1..], cs, len)
    case WriteOp(path, buffer, offset) =>
      Parse(path) == Some(cs) && offset == len && Chunks(ops[1..], cs, len + |buffer|)
  }

  function Chunk(op: Op): seq<byte> {
    if op.WriteOp? then op.buffer else []
  }

  function Payload(ops: seq<Op>): seq<byte> {
    if ops == [] then [] else Chunk(ops[0]) + Payload(ops[1..])
  }

  /** `cs` is a file that reads as `bytes` and can still grow. */
  predicate Growable(img: Image, cs: Path, bytes: seq<byte>) {
    IsFileAt(img.tree, cs) && CanGrow(img, FileAt(img.tree, cs))
    && FileAt(img.tree, cs).size == |bytes| && Lump(img.body, FileAt(img.tree, cs)) == bytes
  }

  /** A create leaves every file's descriptor alone. */
  lemma CreateKeepsFile(img: Image, path: seq<byte>, kind: Kind, cs: Path)
    requires IsFileAt(img.tree, cs)
    ensures IsFileAt(Create(img, path, kind).tree, cs)
    ensures FileAt(Create(img, path, kind).tree, cs) == FileAt(img.tree, cs)
  {
    var plan := CreatePlan(img.tree, path, kind);
    if plan.Planned? {
      PlanNode(img.tree, path, kind);
      ShowAfterAppend(img.tree, plan.home, plan.node, cs);
    }
  }

  /** One step of a chunked write: the file takes the chunk and can still grow. */
  lemma ChunkStep(img: Image, op: Op, cs: Path, bytes: seq<byte>)
    requires Good(img) && Growable(img, cs, bytes)
    requires op.WriteOp? ==> Parse(op.path) == Some(cs) && op.offset == |bytes|
    ensures Growable(Step(img, op), cs, bytes + Chunk(op))
    ensures op.WriteOp? ==> Write(img, op.path, op.buffer, op.offset).1 == |op.buffer|
  {
    var d := FileAt(img.tree, cs);
    match op
    case CreateOp(path, kind) =>
      CreateKeepsFile(img, path, kind, cs);
    case WriteOp(path, buffer, offset) =>
      FoundIsSound(img, cs);
      ShowAfterSet(img.tree, cs, Grown(img, d, |buffer|), cs);
      LumpGrows(img, d, buffer);
  }

  /** Any number of consecutive chunks, with creates in between, all arrive. */
  lemma {:induction false} ChunksArrive(img: Image, cs: Path, ops: seq<Op>, bytes: seq<byte>)
    requires Good(img) && Fits(img, ops) && Growable(img, cs, bytes) && Chunks(ops, cs, |bytes|)
    ensures Growable(Run(img, ops), cs, bytes + Payload(ops))
    decreases |ops|
  {
    hide Growable, Good, Step, Parse, Small;
    if ops == [] {
      assert bytes + [] == bytes;
    } else {
      ChunkStep(img, ops[0], cs, bytes);
      StepGood(img, ops[0]);
      ChunksArrive(Step(img, ops[0]), cs, ops[1..], bytes + Chunk(ops[0]));
      assert (bytes + Chunk(ops[0])) + Payload(ops[1..]) == bytes + Payload(ops);
    }
  }

  /**
   * Writing an empty file chunk by chunk, with creates in between, leaves it reading as one
   * write of the concatenation does.
   */
  lemma ChunkedWrite(img: Image, path: seq<byte>, ops: seq<Op>)
    requires Good(img) && Fits(img, ops) && Parse(path).Some?
    requires IsFileAt(img.tree, Parse(path).value) && FileAt(img.tree, Parse(path).value).size == 0
    requires Chunks(ops, Parse(path).value, 0)
    ensures View(Run(img, ops), Parse(path).value)
            == View(Write(img, path, Payload(ops), 0).0, Parse(path).value)
            == Some(Contents(Payload(ops)))
  {
    var cs := Parse(path).value;
    FoundIsSound(img, cs);
    ChunksArrive(img, cs, ops, []);
    ChunkStep(img, WriteOp(path, Payload(ops), 0), cs, []);
    assert [] + Payload(ops) == Payload(ops);
    GrowableView(Run(img, ops), cs, Payload(ops));
    GrowableView(Write(img, path, Payload(ops), 0).0, cs, Payload(ops));
  }

  lemma GrowableView(img: Image, cs: Path, bytes: seq<byte>)
    requires Growable(img, cs, bytes)
    ensures View(img, cs) == Some(Contents(bytes))
  {
  }

  // ---------- files that can no longer grow ----------

  /** A non-empty file whose lump is no longer the last one. */
  predicate Locked(img: Image, cs: Path) {
    IsFileAt(img.tree, cs) && !CanGrow(img, FileAt(img.tree, cs))
  }

  /** Writing anything to another file locks a non-empty file. */
  lemma ForeignWriteLocks(img: Image, cs: Path, path: seq<byte>, buffer: seq<byte>, offset: int)
    requires Good(img) && IsFileAt(img.tree, cs) && FileAt(img.tree, cs).size > 0
    requires Parse(path).Some? && Parse(path) != Some(cs) && Accepts(img, Parse(path).value, offset) && buffer != []
    ensures Locked(Write(img, path, buffer, offset).0, cs)
  {
    var p := Parse(path).value;
    FoundIsSound(img, cs);
    ShowAfterSet(img.tree, p, Grown(img, FileAt(img.tree, p), |buffer|), cs);
  }

  /** A locked file refuses every write and reads the same for the rest of the run. */
  lemma {:induction false} LockedForever(img: Image, cs: Path, ops: seq<Op>)
    requires Good(img) && Fits(img, ops) && Locked(img, cs)
    ensures Locked(Run(img, ops), cs) && View(Run(img, ops), cs) == View(img, cs)
    ensures forall path, buffer, offset | Parse(path) == Some(cs) :: Write(img, path, buffer, offset) == (img, 0)
    decreases |ops|
  {
    if ops != [] {
      LockedStep(img, cs, ops[0]);
      StepGood(img, ops[0]);
      LockedForever(Step(img, ops[0]), cs, ops[1..]);
    }
  }

  lemma LockedStep(img: Image, cs: Path, op: Op)
    requires Good(img) && Locked(img, cs)
    ensures Locked(Step(img, op), cs) && View(Step(img, op), cs) == View(img, cs)
  {
    var d := FileAt(img.tree, cs);
    FoundIsSound(img, cs);
    match op
    case CreateOp(path, kind) =>
      CreateKeepsFile(img, path, kind, cs);
    case WriteOp(path, buffer, offset) =>
      if Parse(path).Some? && Accepts(img, Parse(path).value, offset) {
        var p := Parse(path).value;
        ShowAfterSet(img.tree, p, Grown(img, FileAt(img.tree, p), |buffer|), cs);
        LumpStays(img, d, buffer);
      }
  }
}
