/** The dump tool: a recursive, path-based traversal of a whole WAD. */
module WadDump {
  import opened Bytes
  import opened Names
  import opened Paths
  import opened Forest
  import opened Lookup
  import opened Growth
  import opened WadImage
  import opened FileSystem
  import opened Wad

  /** One line of output; the level is also its indentation. */
  datatype Line =
    | Objects(level: nat, count: int)
    | DirLine(level: nat, name: seq<byte>)
    | ContentLine(level: nat, name: seq<byte>, size: int)
    | Warning(level: nat, name: seq<byte>)

  // ---------- what the tool prints ----------

  /** The lines for an entry that resolves to `n`. */
  function NodeLines(n: Node, level: nat): seq<Line>
    decreases n, 0, 0
  {
    if n.File? then [ContentLine(level, n.Label(), n.d.size)]
    else [DirLine(level, n.Label())] + FolderLines(n.kids, level + 1)
  }

  /** The lines for a directory or map with these children. */
  function FolderLines(f: seq<Node>, level: nat): seq<Line>
    decreases f, 1, 0
  {
    [Objects(level, |f|)] + EntryLines(f, 0, level)
  }

  /** The lines for the entries from the `i`-th on: each name shows its first match. */
  function EntryLines(f: seq<Node>, i: nat, level: nat): seq<Line>
    requires i <= |f|
    decreases f, 0, |f| - i
  {
    if i == |f| then []
    else
      FirstExists(f, i);
      NodeLines(f[First(f, f[i].Label()).value], level) + EntryLines(f, i + 1, level)
  }

  lemma {:induction false} FirstExists(f: seq<Node>, i: nat)
    requires i < |f|
    ensures First(f, f[i].Label()).Some?
  {
    if i > 0 {
      FirstExists(f[1..], i - 1);
    }
  }

  // ---------- the traversal itself ----------

  /** `path` ends in a slash and denotes `o`. */
  predicate Leads(tree: seq<Node>, path: seq<byte>, o: Owner) {
    path != [] && path[0] == SLASH && path[|path| - 1] == SLASH && 0 !in path
    && Find(Top(tree), Components(path)) == Some(o)
  }

  /**
   * Prints the directory at `path` and everything below it. The lines are those of the tree,
   * so the traversal ends, and no entry fails to resolve.
   */
  method ExploreDirectory(data: Wad, path: seq<byte>, level: nat, ghost o: Owner) returns (out: seq<Line>)
    requires data.Valid() && Leads(data.tree, path, o) && !o.IsFile() && WellFormed(o.Kids())
    ensures out == FolderLines(o.Kids(), level)
    decreases o.Kids(), 1
  {
    hide Find, Components, WellFormed, WellFormedNode, First, Good, OnDisk, Seen, Parse, Leads;
    hide EntryLines, NodeLines, FolderLines, Labels, Flatten;
    LeadsSeen(data.Abs(), path, o);
    var count, entries := data.GetDirectory(path, []);
    LabelsAre(o.Kids());
    LinesAre(o.Kids(), level);
    out := [Objects(level, count)];
    ghost var f := o.Kids();
    for i := 0 to |entries|
      invariant out + EntryLines(f, i, level) == FolderLines(f, level)
    {
      FirstExists(f, i);
      var lines := ExploreEntry(data, path, entries[i], level, o, i);
      EntryStep(f, i, level, out, lines);
      out := out + lines;
    }
  }

  /** The body of the loop over the entries: the `i`-th entry, by its path. */
  method ExploreEntry(data: Wad, path: seq<byte>, entry: seq<byte>, level: nat, ghost o: Owner, ghost i: nat)
    returns (lines: seq<Line>)
    requires data.Valid() && Leads(data.tree, path, o) && WellFormed(o.Kids())
    requires i < |o.Kids()| && entry == o.Kids()[i].Label() && First(o.Kids(), entry).Some?
    ensures lines == NodeLines(o.Kids()[First(o.Kids(), entry).value], level)
    decreases o.Kids(), 0
  {
    hide Find, Components, WellFormed, WellFormedNode, First, Good, OnDisk, Seen, Parse, Leads;
    hide NodeLines, FolderLines, Flatten;
    var entryPath := path + entry;
    ghost var n := o.Kids()[First(o.Kids(), entry).value];
    EntryLeads(data.tree, path, o, i);
    EntrySeen(data.Abs(), entryPath, n);
    NodeLinesAre(n, level);
    var isDir := data.IsDirectory(entryPath);
    if isDir {
      var below := ExploreDirectory(data, entryPath + [SLASH], level + 1, In(n));
      lines := [DirLine(level, entry)] + below;
    } else {
      var isFile := data.IsContent(entryPath);
      if isFile {
        var size := data.GetSize(entryPath);
        lines := [ContentLine(level, entry, size)];
      } else {
        lines := [Warning(level, entry)];
      }
    }
  }

  lemma PathIsItself(path: seq<byte>)
    requires 0 !in path
    ensures CString(path) == path
  {
    CountToUnique(path, 0, |path|);
  }

  lemma LinesAre(f: seq<Node>, level: nat)
    ensures FolderLines(f, level) == [Objects(level, |f|)] + EntryLines(f, 0, level)
    ensures forall out: seq<Line> :: out + EntryLines(f, |f|, level) == out
  {
  }

  lemma LabelsAre(f: seq<Node>)
    ensures |Labels(f)| == |f| && [] + Labels(f) == Labels(f)
    ensures forall i | 0 <= i < |f| :: Labels(f)[i] == f[i].Label()
  {
  }

  lemma NodeLinesAre(n: Node, level: nat)
    ensures NodeLines(n, level) ==
            if n.File? then [ContentLine(level, n.Label(), n.d.size)]
            else [DirLine(level, n.Label())] + FolderLines(n.Kids(), level + 1)
  {
  }

  lemma EntryStep(f: seq<Node>, i: nat, level: nat, out: seq<Line>, lines: seq<Line>)
    requires i < |f| && First(f, f[i].Label()).Some?
    requires lines == NodeLines(f[First(f, f[i].Label()).value], level)
    ensures out + EntryLines(f, i, level) == (out + lines) + EntryLines(f, i + 1, level)
  {
  }

  lemma LeadsSeen(img: Image, path: seq<byte>, o: Owner)
    requires Leads(img.tree, path, o) && !o.IsFile()
    ensures Seen(img, path) == Some(Listing(Labels(o.Kids())))
  {
    PathIsItself(path);
  }

  /** Appending an entry's name to a directory's path appends one component. */
  lemma AppendEntry(path: seq<byte>, c: seq<byte>)
    requires path != [] && path[|path| - 1] == SLASH && IsComponent(c)
    ensures Components(path + c) == Components(path) + [c]
    ensures Components(path + c + [SLASH]) == Components(path) + [c]
  {
    hide CString, Components, CountTo;
    NoComponents();
    var a := path[..|path| - 1];
    assert path == a + [SLASH] + [] && path + c == a + [SLASH] + c && path + c + [SLASH] == path + c + [SLASH] + [];
    SlashSeparates(a, []);
    SlashSeparates(a, c);
    SlashSeparates(path + c, []);
    OneComponent(c);
  }

  lemma FindEntry(tree: seq<Node>, cs: Path, o: Owner, c: seq<byte>)
    requires Find(Top(tree), cs) == Some(o) && First(o.Kids(), c).Some?
    ensures Find(Top(tree), cs + [c]) == Some(In(o.Kids()[First(o.Kids(), c).value]))
  {
    FindLast(Top(tree), cs + [c]);
    assert Parent(cs + [c]) == cs && Last(cs + [c]) == c;
  }

  /** A listed name, appended to the directory's path, leads to the first child of that name. */
  lemma EntryLeads(tree: seq<Node>, path: seq<byte>, o: Owner, i: nat)
    requires Leads(tree, path, o) && WellFormed(o.Kids()) && i < |o.Kids()|
    requires First(o.Kids(), o.Kids()[i].Label()).Some?
    ensures var c := o.Kids()[i].Label();
            var n := o.Kids()[First(o.Kids(), c).value];
            Leads(tree, path + c + [SLASH], In(n)) && WellFormedNode(n) && WellFormed(n.Kids()) && n.Label() == c
            && Parse(path + c).Some? && Find(Top(tree), Parse(path + c).value) == Some(In(n))
  {
    hide First, Find, Components, IsStart, IsMap, IsEnd, CString;
    var c := o.Kids()[i].Label();
    WellFormedAt(o.Kids(), i);
    WellFormedAt(o.Kids(), First(o.Kids(), c).value);
    AppendEntry(path, c);
    PathIsItself(path + c);
    FindEntry(tree, Components(path), o, c);
  }

  /** What the three queries on an entry's path answer. */
  lemma EntrySeen(img: Image, path: seq<byte>, n: Node)
    requires Good(img) && Parse(path).Some? && Find(Top(img.tree), Parse(path).value) == Some(In(n))
    ensures n.File? ==> exists bytes :: Seen(img, path) == Some(Contents(bytes)) && |bytes| == n.d.size
    ensures !n.File? ==> Seen(img, path) == Some(Listing(Labels(n.kids)))
  {
    if n.File? {
      FoundIsSound(img, Parse(path).value);
      assert Seen(img, path) == Some(Contents(Lump(img.body, n.d)));
    }
  }

  // ---------- every entry resolves ----------

  predicate NoWarnings(lines: seq<Line>) {
    forall i | 0 <= i < |lines| :: !lines[i].Warning?
  }

  /** On every forest, with or without repeated names, no entry fails to resolve. */
  lemma {:induction false} FolderNoWarnings(f: seq<Node>, level: nat)
    ensures NoWarnings(FolderLines(f, level))
    decreases f, 2, 0
  {
    EntriesNoWarnings(f, 0, level);
  }

  lemma {:induction false} EntriesNoWarnings(f: seq<Node>, i: nat, level: nat)
    requires i <= |f|
    ensures NoWarnings(EntryLines(f, i, level))
    decreases f, 1, |f| - i
  {
    if i < |f| {
      FirstExists(f, i);
      var n := f[First(f, f[i].Label()).value];
      if !n.File? {
        FolderNoWarnings(n.kids, level + 1);
      }
      EntriesNoWarnings(f, i + 1, level);
    }
  }

  // ---------- every node is visited once, in list order ----------

  /** What a line says but for the counts: a node with its size if it is a file, or that a folder opens. */
  datatype Mention = Mention(level: int, name: seq<byte>, size: Option<int>) | Opening(level: int)

  function MentionOf(line: Line): seq<Mention> {
    match line
    case Objects(level, _) => [Opening(level)]
    case DirLine(level, name) => [Mention(level, name, None)]
    case ContentLine(level, name, size) => [Mention(level, name, Some(size))]
    case Warning(_, _) => []
  }

  function Mentions(lines: seq<Line>): seq<Mention> {
    if lines == [] then [] else MentionOf(lines[0]) + Mentions(lines[1..])
  }

  /**
   * The same read off the descriptor list: a start marker opens a level, an end marker closes
   * it, and the ten descriptors behind a map are one level below it. `lumps` counts down those.
   */
  function ListMentions(ds: seq<Descriptor>, level: int, lumps: nat): seq<Mention> {
    if ds == [] then []
    else
      var d := ds[0];
      var name := Names.Label(d.name);
      if IsEnd(d.name) then ListMentions(ds[1..], level - 1, 0)
      else if IsStart(d.name) then
        [Mention(level, name, None), Opening(level + 1)] + ListMentions(ds[1..], level + 1, 0)
      else if IsMap(d.name) then
        [Mention(level, name, None), Opening(level + 1)] + ListMentions(ds[1..], level, 10)
      else if lumps > 0 then [Mention(level + 1, name, Some(d.size))] + ListMentions(ds[1..], level, lumps - 1)
      else [Mention(level, name, Some(d.size))] + ListMentions(ds[1..], level, 0)
  }

  lemma {:induction false} MentionsConcat(a: seq<Line>, b: seq<Line>)
    ensures Mentions(a + b) == Mentions(a) + Mentions(b)
    decreases |a|
  {
    hide MentionOf;
    if a == [] {
      assert a + b == b;
    } else {
      assert (a + b)[1..] == a[1..] + b;
      MentionsConcat(a[1..], b);
    }
  }

  lemma MentionsCons(line: Line, lines: seq<Line>)
    ensures Mentions([line] + lines) == MentionOf(line) + Mentions(lines)
  {
    hide MentionOf;
    assert ([line] + lines)[1..] == lines;
  }

  /**
   * With unique sibling names the dump mentions exactly the files, maps and directories of
   * the descriptor list, each once, in list order and at its depth.
   */
  lemma {:induction false} FolderVisitsAll(f: seq<Node>, level: nat)
    requires WellFormed(f) && Unique(f)
    ensures Mentions(FolderLines(f, level)) == [Opening(level)] + ListMentions(Flatten(f), level, 0)
    decreases f, 2, 0
  {
    hide WellFormed, Unique, Flatten, EntryLines;
    EntriesVisitAll(f, 0, level, []);
    assert f[0..] == f && Flatten(f) + [] == Flatten(f);
    MentionsCons(Objects(level, |f|), EntryLines(f, 0, level));
  }

  lemma {:induction false} EntriesVisitAll(f: seq<Node>, i: nat, level: nat, rest: seq<Descriptor>)
    requires WellFormed(f) && Unique(f) && i <= |f|
    ensures Mentions(EntryLines(f, i, level)) + ListMentions(rest, level, 0)
            == ListMentions(Flatten(f[i..]) + rest, level, 0)
    decreases f, 1, |f| - i
  {
    hide *;
    if i < |f| {
      UniqueFirst(f, i);
      WellFormedAt(f, i);
      NodeVisitsAll(f[i], level, Flatten(f[i + 1..]) + rest);
      EntriesVisitAll(f, i + 1, level, rest);
      MentionsConcat(NodeLines(f[i], level), EntryLines(f, i + 1, level));
      NextEntry(f, i, level);
      assert Flatten(f[i..]) + rest == Flat(f[i]) + (Flatten(f[i + 1..]) + rest);
    } else {
      NoEntries(f, level);
      assert [] + rest == rest;
    }
  }

  lemma NextEntry(f: seq<Node>, i: nat, level: nat)
    requires i < |f| && First(f, f[i].Label()) == Some(i)
    ensures Flatten(f[i..]) == Flat(f[i]) + Flatten(f[i + 1..])
    ensures EntryLines(f, i, level) == NodeLines(f[i], level) + EntryLines(f, i + 1, level)
  {
    hide Flat, NodeLines, First;
    assert f[i..][1..] == f[i + 1..];
  }

  lemma NoEntries(f: seq<Node>, level: nat)
    ensures Flatten(f[|f|..]) == [] && Mentions(EntryLines(f, |f|, level)) == []
  {
  }

  lemma {:induction false} NodeVisitsAll(n: Node, level: nat, rest: seq<Descriptor>)
    requires WellFormedNode(n) && Unique(n.Kids())
    ensures Mentions(NodeLines(n, level)) + ListMentions(rest, level, 0) == ListMentions(Flat(n) + rest, level, 0)
    decreases n, 0, 0
  {
    hide IsEnd, IsStart, IsMap, Addressable, Names.Label, Unique, EntryLines, Flatten, Mentions, ListMentions;
    RolesDisjoint(n.d.name);
    assert Mentions([]) == [] by { NoMentions(); }
    match n
    case File(d) =>
      ListStep(d, rest, level, 0);
      MentionsCons(ContentLine(level, n.Label(), d.size), []);
      assert NodeLines(n, level) == [ContentLine(level, n.Label(), d.size)] + [];
    case Map(d, kids) =>
      LumpsVisitAll(kids, 0, level, rest);
      assert kids[0..] == kids && Flat(n) + rest == [d] + (Flatten(kids) + rest);
      ListStep(d, Flatten(kids) + rest, level, 0);
      FolderMentions(n, level);
    case Dir(d, kids, close) =>
      EntriesVisitAll(kids, 0, level + 1, [close] + rest);
      assert kids[0..] == kids && Flat(n) + rest == [d] + (Flatten(kids) + ([close] + rest));
      ListStep(d, Flatten(kids) + ([close] + rest), level, 0);
      ListStep(close, rest, level + 1, 0);
      RolesDisjoint(close.name);
      FolderMentions(n, level);
  }

  lemma NoMentions()
    ensures Mentions([]) == []
  {
  }

  lemma ListStep(d: Descriptor, rest: seq<Descriptor>, level: int, lumps: nat)
    ensures var name := Names.Label(d.name);
            ListMentions([d] + rest, level, lumps) ==
            if IsEnd(d.name) then ListMentions(rest, level - 1, 0)
            else if IsStart(d.name) then
              [Mention(level, name, None), Opening(level + 1)] + ListMentions(rest, level + 1, 0)
            else if IsMap(d.name) then
              [Mention(level, name, None), Opening(level + 1)] + ListMentions(rest, level, 10)
            else if lumps > 0 then [Mention(level + 1, name, Some(d.size))] + ListMentions(rest, level, lumps - 1)
            else [Mention(level, name, Some(d.size))] + ListMentions(rest, level, 0)
  {
    hide IsEnd, IsStart, IsMap, Names.Label;
    assert ([d] + rest)[1..] == rest;
  }

  lemma FolderMentions(n: Node, level: nat)
    requires !n.File?
    ensures Mentions(NodeLines(n, level)) ==
            [Mention(level, n.Label(), None), Opening(level + 1)] + Mentions(EntryLines(n.kids, 0, level + 1))
  {
    hide EntryLines, Mentions, Names.Label;
    MentionsCons(DirLine(level, n.Label()), FolderLines(n.kids, level + 1));
    MentionsCons(Objects(level + 1, |n.kids|), EntryLines(n.kids, 0, level + 1));
  }

  /** The lumps of a map, from the `i`-th on. */
  lemma {:induction false} LumpsVisitAll(f: seq<Node>, i: nat, level: nat, rest: seq<Descriptor>)
    requires WellFormed(f) && Unique(f) && i <= |f| && forall j | 0 <= j < |f| :: f[j].File?
    ensures Mentions(EntryLines(f, i, level + 1)) + ListMentions(rest, level, 0)
            == ListMentions(Flatten(f[i..]) + rest, level, |f| - i)
    decreases f, 1, |f| - i
  {
    hide WellFormed, Unique, IsEnd, IsStart, IsMap, Addressable, Names.Label, Mentions, ListMentions;
    if i < |f| {
      UniqueFirst(f, i);
      WellFormedAt(f, i);
      LumpsVisitAll(f, i + 1, level, rest);
      var line := ContentLine(level + 1, f[i].Label(), f[i].d.size);
      MentionsCons(line, EntryLines(f, i + 1, level + 1));
      assert f[i..][1..] == f[i + 1..];
      assert Flatten(f[i..]) + rest == [f[i].d] + (Flatten(f[i + 1..]) + rest);
      ListStep(f[i].d, Flatten(f[i + 1..]) + rest, level, |f| - i);
    } else {
      NoMentions();
      assert Flatten([]) + rest == rest;
    }
  }

  // ---------- the counts ----------

  /** The counts of all folders less the number of entries printed. */
  function Balance(lines: seq<Line>): int {
    if lines == [] then 0 else (if lines[0].Objects? then lines[0].count else -1) + Balance(lines[1..])
  }

  lemma {:induction false} BalanceConcat(a: seq<Line>, b: seq<Line>)
    ensures Balance(a + b) == Balance(a) + Balance(b)
    decreases |a|
  {
    if a == [] {
      assert a + b == b;
    } else {
      assert (a + b)[1..] == a[1..] + b;
      BalanceConcat(a[1..], b);
    }
  }

  /** In every folder the announced counts add up to the entries printed. */
  lemma {:induction false} FolderBalance(f: seq<Node>, level: nat)
    ensures Balance(FolderLines(f, level)) == 0
    decreases f, 2, 0
  {
    EntriesBalance(f, 0, level);
    BalanceConcat([Objects(level, |f|)], EntryLines(f, 0, level));
    assert Balance([Objects(level, |f|)]) == |f|;
  }

  lemma {:induction false} EntriesBalance(f: seq<Node>, i: nat, level: nat)
    requires i <= |f|
    ensures Balance(EntryLines(f, i, level)) == i - |f|
    decreases f, 1, |f| - i
  {
    hide NodeLines, First, Names.Label;
    if i < |f| {
      FirstExists(f, i);
      var n := f[First(f, f[i].Label()).value];
      NodeBalance(n, level);
      EntriesBalance(f, i + 1, level);
      BalanceConcat(NodeLines(n, level), EntryLines(f, i + 1, level));
    }
  }

  lemma {:induction false} NodeBalance(n: Node, level: nat)
    ensures Balance(NodeLines(n, level)) == -1
    decreases n, 0, 0
  {
    hide FolderLines, Names.Label;
    if !n.File? {
      FolderBalance(n.kids, level + 1);
      assert ([DirLine(level, n.Label())] + FolderLines(n.kids, level + 1))[1..] == FolderLines(n.kids, level + 1);
    } else {
      assert Balance([]) == 0;
    }
  }

  /**
   * The dump of the whole WAD from `/`: every entry resolves, the counts add up to the
   * entries, and with unique sibling names it mentions every file, map and directory of the
   * list once, in list order and indented by its depth.
   */
  method Explore(data: Wad) returns (out: seq<Line>)
    requires data.Valid()
    ensures out == FolderLines(data.tree, 1) && NoWarnings(out) && Balance(out) == 0
    ensures Unique(data.tree) ==> Mentions(out) == [Opening(1)] + ListMentions(data.descriptors, 1, 0)
  {
    hide Find, Components, FolderLines, Mentions, ListMentions, Flatten, Unique, OnDisk, Balance;
    RootLeads(data.tree);
    out := ExploreDirectory(data, [SLASH], 1, Top(data.tree));
    FolderNoWarnings(data.tree, 1);
    FolderBalance(data.tree, 1);
    if Unique(data.tree) {
      FolderVisitsAll(data.tree, 1);
    }
  }

  lemma RootLeads(tree: seq<Node>)
    ensures Leads(tree, [SLASH], Top(tree))
  {
    assert [SLASH] == [] + [SLASH] + [];
    SlashSeparates([], []);
  }
}
