# Verified models of the COP4600 course projects

This project models four pieces of the repository in Dafny and proves what they promise.

**The WAD library** (`project3/libWad/Wad.cpp`). A WAD file is a tree of directories, maps and
files kept as one flat list of 16-byte descriptors: a directory is whatever stands between an
`xx_START` and its `_END` marker, an `E#M#` map owns the next ten descriptors, everything else is
a file. The library walks that list in place, inserts into it, and mirrors every change to disk.
The model keeps three views and proves that they agree:

- `Forest`, `Lookup`, `Growth`: the tree, component-by-component lookup, appending a child,
  rewriting a file's descriptor.
- `Layout`, `Moves`, `Wad`: the flat list, the scan `skip`, the child walk `WAD_ITER`, and the class
  `Wad.Wad` with the fields and loops of the original. Its ghost field `tree` is the forest that
  the list flattens.
- `Rebuild`: reading that forest back off the list; it succeeds on exactly the lists that flatten a
  well-formed forest (`Rebuild.RebuildFlatten`).
- `WadImage`, `FileSystem`, `Runs`, `Session`: the bytes on disk, what every path reads as, and
  whole runs of operations.

`WadDump` is the path-based traversal of `project3/wad_dump.cpp`. `MapGap` is a concrete WAD for
the one case in which a create inside a map is accepted.

**The memory manager** (`project2/MemoryManager/MemoryManager.cpp`). The only state of the word
allocator is two bits per word. Read the high bit at `k` as "a live block starts at `k`, or `k` is
the end of the pool" and the low bit as "a live block ends at `k`, or `k` is 0". `Blocks` has the
live blocks and the holes between them, `CodeMap` the packed bytes, `MemoryManager` the class,
`Allocators` the callbacks (with `hopesAndDreamsAllocator` from `project2/test.cpp`), `PoolRuns`
the consequences over several calls. The allocator is any callback with any captured state that
answers with a negative number or with a range inside one listed hole, on every list of at most
`most` holes; a pool that can have more holes than its callback's `most` is not initialized.
`RotationLimit` is about the one callback that has such a bound.

**The wall server** (`ex8/wallserver.c`). `WallServer` has the circular message queue and the line
reader of a connection.

## How the main results fit together

- A path means what tree lookup says: `Wad.Wad.Resolve` is proved against `Layout.Denotes` and
  `Layout.Lands`, which `Layout.DenotesFind`, `Layout.LandsStep` and `Growth.HomeExact` tie to the
  tree; `Paths.SlashSeparates` fixes how a string splits.
- Every public operation of `Wad.Wad` is proved equal to an operation on images
  (`FileSystem.Create`, `FileSystem.Write`), and those are characterised by what *every* path reads
  as afterwards (`FileSystem.CreateView`, `FileSystem.WriteView`).
- `Wad.Wad.Valid` says that the file holds exactly the image, so a second load gives back the same
  object after any run (`Session.PerformAndReload`).
- A create with a map as its parent is meant to be refused. The guard accepts it exactly when the
  map is the last of its siblings and the name is usable and free in the map
  (`FileSystem.CreateUnderLastMap`, with a concrete file in `MapGap.CreateInsideMapAccepted`). The
  node then joins the directory around the map, and sibling names stay unique exactly when the name
  was free there. Over a whole run they stay unique if and only if every accepted create was clean
  in this sense (`Runs.RunUnique`). The tests of `project3/libtest.cpp:701-734` use a map
  that is not the last sibling, so they do not meet this case.
- The packed map is a function of the live blocks alone (`CodeMap.MapDetermined`); `allocate` and
  `free` each change the blocks by one entry and the map by two bits.
- The formats are fixed by their bytes, apart from the definitions that code and proofs share:
  names (`Names.StartByText`, `Names.EndByText`, `Names.MapByText`), the file
  (`WadImage.LoadBytes`, `Bytes.LowByteFirst`), new descriptors (`FileSystem.MakeNodeIff`), the map
  (`CodeMap.ByteLayout`), the hole list (`MemoryManager.PackCells`), the bitmap
  (`MemoryManager.MemoryManager.GetBitmap`), lines (`WallServer.TakeWhere`).
- The rotating allocator counts hole cells in a 16-bit index. Its loop ends if and only if there are
  at most 32767 holes (`Allocators.LoopEndsIff`), which pools of at most 65534 words guarantee and
  larger ones do not (`RotationLimit.LoopEndsInPool`); `RotationLimit.ManyHoles` reaches 32768 holes
  by calls alone.
- A `conn_read` replies with the next line, or -1 when there is none, if and only if no newline was
  left over in the buffer (`WallServer.NextLineIff`). Over a whole conversation the replies are the
  lines of the stream if and only if every chunk holds at most one newline
  (`WallServer.ReadAll`); `WallServer.LineLost` loses a line to a chunk with two.

`hide` statements in proofs only keep definitions out of the solver's sight.

## Model

| member | source | states |
|---|---|---|
| `Bytes.CStringEnds` | project3/libWad/Wad.cpp:73 | A C string ends before its first NUL; without one it is the whole text. |
| `Bytes.LowByteFirst` | project3/libWad/Wad.cpp:126-132 | A 32-bit word lies in the file with its low byte first. |
| `Names.StartByText` | project3/libWad/Wad.cpp:11-15 | A start marker is a name whose text ends in the six bytes of `_START`. |
| `Names.EndByText` | project3/libWad/Wad.cpp:26-30 | An end marker is a name whose text ends in the four bytes of `_END`. |
| `Names.MapByText` | project3/libWad/Wad.cpp:17-24 | A map is a name whose text is `E`, one of the ten digits, `M`, one of the ten digits. |
| `Names.RolesDisjoint` | project3/libWad/Wad.cpp:11-30 | No name is both a start and an end marker, and a map name is neither. |
| `Names.StrippedIsLabel` | project3/libWad/Wad.cpp:100-106 | Comparing the padded component with the name whose `_START` is zeroed is comparing the component with the listed name. |
| `Names.LabelByText` | project3/libWad/Wad.cpp:100-106 | A name is listed as its text, without a final `_START`. |
| `Names.MarkerNames` | project3/libWad/Wad.cpp:198-203 | A one- or two-character component followed by the bytes of `_START` and `_END` gives a start marker listed under the component and an end marker. |
| `Paths.ParseIff` | project3/libWad/Wad.cpp:78-80 | A path argument is looked up if and only if its first byte is a slash. |
| `Paths.ParseText` | project3/libWad/Wad.cpp:73-98 | The components looked up are those of the text between that slash and the first NUL. |
| `Paths.SlashSeparates` | project3/libWad/Wad.cpp:81-98 | Splitting a path at a slash splits its component list there, so repeated, leading and trailing slashes change nothing. |
| `Paths.OneComponent` | project3/libWad/Wad.cpp:87-90 | A non-empty slash-free string is one component. |
| `Paths.ComponentsAreComponents` | project3/libWad/Wad.cpp:81-98 | Components are never empty and contain no slash and no NUL. |
| `Forest.SkipNode` | project3/libWad/Wad.cpp:42-55 | From any node's first descriptor the scan stops exactly one past the node's span, whatever is nested; under an open directory it passes over the span with the depth unchanged. |
| `Rebuild.Rebuild` | project3/libWad/Wad.cpp:42-69 | Cutting a list into node spans by the scan, recursively, yields only well-formed forests that flatten to the list. |
| `Rebuild.RebuildFlatten` | project3/libWad/Wad.cpp:42-69 | Rebuilding the flattening of a well-formed forest gives that forest back, whatever is nested in it. |
| `Rebuild.FlattenInjective` | project3/libWad/Wad.cpp:42-69 | A descriptor list is the flattening of at most one well-formed forest. |
| `Lookup.ShowAfterAppend` | project3/libWad/Wad.cpp:193-223 | After appending a childless node to a directory, that directory lists one more name, the name (if it was free) leads to the node, and every other path shows what it showed. |
| `Lookup.UniqueFirst` | project3/libWad/Wad.cpp:99-107 | With unique sibling names the first match of a child's own name is that child. |
| `Lookup.UniqueAfterAppend` | project3/libWad/Wad.cpp:193-223 | Sibling names are unique after an append if and only if they were before and the name was free in its directory. |
| `Growth.HomeExact` | project3/libWad/Wad.cpp:107-115 | The scan for an insertion point accepts and places exactly as the rule on the parent says: root or directory yes, file or nothing no, map only when last among its siblings and then beside it. |
| `Growth.ShowAfterSet` | project3/libWad/Wad.cpp:225-244 | Rewriting a file's descriptor is visible at that file's path and at no other. |
| `Growth.UniqueAfterSet` | project3/libWad/Wad.cpp:225-244 | Sibling names are unique after a rewrite that keeps the name if and only if they were before. |
| `Layout.ChildStands` | project3/libWad/Wad.cpp:62-69 | Each child lies at its position inside the parent's span and the next child follows directly. |
| `Layout.WalkEnds` | project3/libWad/Wad.cpp:62-69 | Walking root or directory children meets the end of the list or an end marker after the last child and not before. |
| `Layout.DenotesFind` | project3/libWad/Wad.cpp:71-116 | The pointer computed for a path points at the node tree lookup finds, and is null when lookup fails. |
| `Layout.LandsStep` | project3/libWad/Wad.cpp:99-115 | Descending into the matching child leaves the insertion index of a create unchanged. |
| `Layout.AppendIsInsert` | project3/libWad/Wad.cpp:204-205 | Appending a child in the tree is inserting its descriptors in the list at the end of the directory. |
| `Layout.SetIsUpdate` | project3/libWad/Wad.cpp:233-239 | Rewriting a file's descriptor in the tree is updating one element of the list. |
| `Moves.DenotesAfterAppend` | project3/libWad/Wad.cpp:193-223 | After a create every path that resolved resolves to the same place, moved by the inserted length if it lies behind the insertion. |
| `WadImage.DecodeEncode` | project3/libWad/Wad.cpp:132 | Reading back written descriptors gives the same descriptors. |
| `WadImage.LoadBytes` | project3/libWad/Wad.cpp:118-135 | Which bytes of any file, also one that ends early, become magic, list offset, number of descriptors, and offset, size and name of each descriptor. |
| `WadImage.LoadReads` | project3/libWad/Wad.cpp:118-135 | Loading a file that holds an image yields the image's magic, list offset and descriptor list, whatever bytes follow it and whatever memory held before. |
| `WadImage.HoldsAfterInsert` | project3/libWad/Wad.cpp:206-208 | Rewriting the count and only the tail of the list leaves a file that holds the whole new list and the old data. |
| `WadImage.HoldsAfterWrite` | project3/libWad/Wad.cpp:238-242 | Writing data over the old list and the list behind it leaves a file that holds old data, new data and the new list. |
| `FileSystem.FoundIsSound` | project3/libWad/Wad.cpp:158-171 | A file found by path has its whole lump inside the data and reads as exactly its size in bytes. |
| `FileSystem.MakeNodeIff` | project3/libWad/Wad.cpp:193-218 | A component makes a directory if and only if it has at most two characters, and a file if and only if it has at most eight, does not end in `_START` or `_END` and is no map name; the new descriptors have offset and size 0 and exactly the names of the component, with the markers for a directory. |
| `FileSystem.CreateView` | project3/libWad/Wad.cpp:193-223 | What every path reads as after a create: the receiving directory lists one more name, that name (if free) is empty, all else is unchanged; a refused create changes nothing. |
| `FileSystem.CreateUnderDirectory` | project3/libWad/Wad.cpp:107-115 | Under a root or directory a create succeeds if and only if the name is usable and the path denotes nothing, and the path then denotes the new empty node. |
| `FileSystem.CreateElsewhere` | project3/libWad/Wad.cpp:107-115 | Under a file, under nothing, or for the root itself, a create is refused and changes nothing. |
| `FileSystem.CreateUnderLastMap` | project3/libWad/Wad.cpp:107-115 | Under a map a create has an effect if and only if the map is the last sibling and the name is usable and free in it; the path asked for reads as before, the directory around the map lists the name last, and sibling names stay unique if and only if the name was free there. |
| `FileSystem.CreateUnique` | project3/libWad/Wad.cpp:193-223 | Sibling names are unique after an accepted create if and only if they were before and the name was free in the directory where it lands. |
| `FileSystem.CreateGood` | project3/libWad/Wad.cpp:193-223 | A create keeps the list well formed, while it fits below 2^31 bytes, and the lump data as it was. |
| `FileSystem.WriteView` | project3/libWad/Wad.cpp:225-244 | An accepted write makes the target read as old contents plus buffer and leaves every other path as it was; otherwise nothing changes and the result is 0 for a file, -1 for anything else. |
| `FileSystem.WriteResult` | project3/libWad/Wad.cpp:225-244 | A write returns its length if and only if the path reads as contents, the offset is their length, and they are empty or end where the list begins; else 0 for a file and -1 for anything else. |
| `FileSystem.WriteGood` | project3/libWad/Wad.cpp:225-244 | A write keeps every lump inside the data area and only adds to the data. |
| `FileSystem.WriteUnique` | project3/libWad/Wad.cpp:225-244 | A write neither makes nor breaks uniqueness of sibling names. |
| `MapGap.CreateInsideMapAccepted` | project3/libWad/Wad.cpp:110-111 | On a concrete well-formed WAD with unique names, creating a file inside the last map is accepted and gives the root two entries of the same name. |
| `Runs.RunGood` | project3/libWad/Wad.cpp:193-244 | Over every run the image stays well formed, the magic stays, and lump data is never overwritten. |
| `Runs.RunPersists` | project3/libWad/Wad.cpp:193-244 | Over every run, what a path denotes keeps its kind; contents and listings only grow at their end. |
| `Runs.RunUnique` | project3/libWad/Wad.cpp:193-244 | Sibling names are unique after a run if and only if they were before it and every accepted create of the run met a free name in the directory where it landed. |
| `Runs.NoMapParentsClean` | project3/libWad/Wad.cpp:193-244 | A run that names nothing inside maps for creation meets that condition. |
| `Runs.ChunkStep` | project3/libWad/Wad.cpp:231-243 | A write at the end of a growable file is accepted in full and leaves it growable; a create in between does not disturb it. |
| `Runs.ChunkedWrite` | project3/libWad/Wad.cpp:225-244 | An empty file written in any number of consecutive chunks, with creates in between, reads as after one write of the concatenation. |
| `Runs.ForeignWriteLocks` | project3/libWad/Wad.cpp:231-237 | A non-empty accepted write to one file ends the growth of every other non-empty file. |
| `Runs.LockedForever` | project3/libWad/Wad.cpp:231-237 | A non-empty file whose lump is no longer last refuses every write with 0 and reads the same for the rest of any run. |
| `Wad.WalkDoneIsLast` | project3/libWad/Wad.cpp:62-69 | The end test of the child walk holds after the last child and nowhere before. |
| `Wad.PointerKind` | project3/libWad/Wad.cpp:32-40 | The file and directory tests on the resolved pointer agree with what the path reads as. |
| `Wad.Wad.LoadWad` | project3/libWad/Wad.cpp:118-135 | Opens any file, also a short or malformed one, with exactly the fields that the reads produce; the object is valid if and only if the file holds a well-formed image, and then stands for that image. |
| `Wad.Wad.Skip` | project3/libWad/Wad.cpp:42-55 | The loop terminates one past the span of the node it starts on. |
| `Wad.Wad.WalkNext` | project3/libWad/Wad.cpp:62-69 | One step of the child walk goes from each child to the next. |
| `Wad.Wad.FindChild` | project3/libWad/Wad.cpp:99-109 | The walk stops at the first child of the given name, or behind the last child when there is none, and is not entered for files. |
| `Wad.Wad.Resolve` | project3/libWad/Wad.cpp:71-116 | Returns the pointer the path denotes; in create mode the insertion point and padded name, or null when the create is refused. |
| `Wad.Wad.IsContent` | project3/libWad/Wad.cpp:142-145 | True if and only if the path reads as a file. |
| `Wad.Wad.IsDirectory` | project3/libWad/Wad.cpp:147-150 | True if and only if the path reads as a root, directory or map. |
| `Wad.Wad.GetSize` | project3/libWad/Wad.cpp:152-156 | The length of the file's contents, -1 for anything else. |
| `Wad.Wad.GetContents` | project3/libWad/Wad.cpp:158-171 | The selected part of the contents, cut at the end of the file; -1 for anything but a file. |
| `Wad.Wad.GetDirectory` | project3/libWad/Wad.cpp:173-191 | Appends the children's names in list order and returns their number, -1 for anything else. |
| `Wad.Wad.InsertDescriptors` | project3/libWad/Wad.cpp:204-208 | Memory and file take the same insertion. |
| `Wad.Wad.AppendData` | project3/libWad/Wad.cpp:238-242 | Memory and file take the same data and descriptor. |
| `Wad.Wad.CreateDirectory` | project3/libWad/Wad.cpp:193-209 | The new image is that of the create on images, memory and disk agree, and a refused call changes nothing, nor does any call whose pointer to the end of an empty list is null. |
| `Wad.Wad.CreateFile` | project3/libWad/Wad.cpp:211-223 | The same for files. |
| `Wad.Wad.WriteToFile` | project3/libWad/Wad.cpp:225-244 | New image and result are those of the write on images, memory and disk agree, and a rejected call changes nothing. |
| `Session.PerformAndReload` | project3/libWad/Wad.cpp:118-135 | After any list of operations the object is at the run's image, and loading its file again gives the same magic, list offset and descriptor list. |
| `WadDump.ExploreDirectory` | project3/wad_dump.cpp:6-31 | The recursive traversal terminates and prints the lines of the tree below its path. |
| `WadDump.ExploreEntry` | project3/wad_dump.cpp:14-30 | Each listed name resolves, by its path, to the first child of that name. |
| `WadDump.Explore` | project3/wad_dump.cpp:33-37 | From the root: no warning, the announced counts add up to the entries printed, and with unique names every file, map and directory once in list order at its depth, the root at level 1. |
| `WadDump.FolderNoWarnings` | project3/wad_dump.cpp:28-29 | The warning branch is never reached, with or without unique names. |
| `WadDump.FolderVisitsAll` | project3/wad_dump.cpp:14-30 | With unique names the lines mention exactly the non-end descriptors of the list, in order, with file sizes and with levels that the markers and maps of the list determine; each folder opens one level deeper. |
| `WadDump.FolderBalance` | project3/wad_dump.cpp:12 | Below every folder the announced numbers of objects add up to the entries printed, with or without unique names. |
| `Blocks.CodeMeaning` | project2/MemoryManager/MemoryManager.cpp:14-24 | Low bit alone marks the start of a hole, high bit alone its end, no bit repeats the word before, both bits lie between blocks. |
| `Blocks.TakeDisjoint` | project2/MemoryManager/MemoryManager.cpp:73-75 | Taking a free range adds one block to disjoint blocks and uses exactly its words. |
| `Blocks.OwnEnd` | project2/MemoryManager/MemoryManager.cpp:84-88 | No block ends inside another, and erasing a block erases exactly its own end. |
| `Blocks.HolesSeparated` | project2/MemoryManager/MemoryManager.cpp:134-141 | Listed holes are non-empty, in address order, with at least one used word between any two. |
| `Blocks.HolesCover` | project2/MemoryManager/MemoryManager.cpp:134-141 | A word is free if and only if it lies in a listed hole. |
| `Blocks.HolesAreMaximal` | project2/MemoryManager/MemoryManager.cpp:120-143 | An interval is listed if and only if it is a maximal run of free words. |
| `Blocks.Conservation` | project2/MemoryManager/MemoryManager.cpp:120-143 | Used words and hole lengths add up to the pool. |
| `Blocks.HolesFit` | project2/MemoryManager/MemoryManager.cpp:131-133 | There are at most half as many holes as words, rounded up, so the count fits its cell. |
| `CodeMap.ByteLayout` | project2/MemoryManager/MemoryManager.cpp:14-26 | Which bit of a map byte is the low and which the high bit of which of its four words. |
| `CodeMap.CodeRead` | project2/MemoryManager/MemoryManager.cpp:135 | Shifting and masking the map byte reads the code that the live blocks determine. |
| `CodeMap.MapDetermined` | project2/MemoryManager/MemoryManager.cpp:14-24 | Two maps of the same live blocks are equal byte for byte. |
| `CodeMap.InitialEncodes` | project2/MemoryManager/MemoryManager.cpp:49-50 | The two initial writes give the map of an empty pool, also for a pool of no words. |
| `CodeMap.TakeEncodes` | project2/MemoryManager/MemoryManager.cpp:74-75 | Setting two bits turns the map of the blocks into the map with the new block. |
| `CodeMap.FreeEncodes` | project2/MemoryManager/MemoryManager.cpp:85-88 | The two bits that a free clears turn the map of the blocks into the map without the block. |
| `MemoryManager.WordsSuffice` | project2/MemoryManager/MemoryManager.cpp:66 | The words asked for hold the requested bytes, and with one word less they would not. |
| `MemoryManager.PackCells` | project2/MemoryManager/MemoryManager.cpp:131-141 | The list has the number of holes in its first cell, then offset and length of each. |
| `MemoryManager.CodeStep` | project2/MemoryManager/MemoryManager.cpp:134-141 | In every state hole starts and hole ends alternate, beginning with a start, and the end of the pool closes the last hole. |
| `MemoryManager.AnswerIsFree` | project2/MemoryManager/MemoryManager.cpp:68-73 | A range inside a listed hole is free and inside the pool. |
| `MemoryManager.ScanBits` | project2/MemoryManager/MemoryManager.cpp:85-88 | Behind the start of a live block the first low bit is at the block's own end. |
| `MemoryManager.MemoryManager.Initialize` | project2/MemoryManager/MemoryManager.cpp:36-51 | The pool has no live block and its map encodes that. |
| `MemoryManager.MemoryManager.Allocate` | project2/MemoryManager/MemoryManager.cpp:61-77 | Asks the callback with the hole list and the least word count that holds the size, reserves exactly the free range it names, and otherwise changes no block. |
| `MemoryManager.MemoryManager.Free` | project2/MemoryManager/MemoryManager.cpp:79-89 | Removes exactly the block at the address by clearing exactly its two bits; null or no pool changes nothing. |
| `MemoryManager.MemoryManager.NextLow` | project2/MemoryManager/MemoryManager.cpp:86-87 | The scan ends at the block's own end, inside the map. |
| `MemoryManager.MemoryManager.CountHoles` | project2/MemoryManager/MemoryManager.cpp:125-130 | The first loop counts the maximal holes. |
| `MemoryManager.MemoryManager.GetList` | project2/MemoryManager/MemoryManager.cpp:120-143 | The list holds the number of the maximal holes and then offset and length of each in address order, fills its cells exactly and truncates no value. |
| `MemoryManager.MemoryManager.GetBitmap` | project2/MemoryManager/MemoryManager.cpp:145-167 | Mask `1 << k` of byte `j` behind the length is set if and only if word `8j + k` is used; padding is clear. |
| `MemoryManager.LengthRead` | project2/MemoryManager/MemoryManager.cpp:153-154 | The two bytes in front of the bitmap are its length, low byte first. |
| `Allocators.BestFit` | project2/MemoryManager/MemoryManager.cpp:184-200 | The loop answers with the start of the smallest adequate hole, the first among equals, and with -1 if and only if none is adequate. |
| `Allocators.BestIsBest` | project2/MemoryManager/MemoryManager.cpp:184-200 | That hole is the lowest-addressed smallest adequate one; none only if no hole is adequate. |
| `Allocators.WorstFit` | project2/MemoryManager/MemoryManager.cpp:202-218 | The loop answers with the start of the largest hole, the first among equals, if it is adequate, and with -1 if and only if none is. |
| `Allocators.WorstIsWorst` | project2/MemoryManager/MemoryManager.cpp:202-218 | That hole is the lowest-addressed largest one, if it is adequate. |
| `Allocators.BestFitRespectful` | project2/MemoryManager/MemoryManager.cpp:184-200 | `bestFit` meets the callback contract on every list. |
| `Allocators.WorstFitRespectful` | project2/MemoryManager/MemoryManager.cpp:202-218 | `worstFit` meets the callback contract on every list. |
| `Allocators.TopThreeRanks` | project2/test.cpp:44-68 | One pass leaves the three largest adequate holes in order, earlier address first among equals, each slot with its own hole. |
| `Allocators.SlotPlace` | project2/test.cpp:69 | Index 2 selects the hole of highest rank, index 1 the second, index 0 the third, and -1 when there are too few. |
| `Allocators.HopesAndDreams.Allocate` | project2/test.cpp:33-77 | The answer is the start of the adequate hole that exactly `2 - index` adequate holes outrank, and -1 when there are not that many; the index steps 2, 1, 0, 2. |
| `Allocators.RotatingRespectful` | project2/test.cpp:33-77 | The rotating allocator meets the callback contract in every state, on every list of at most 32767 holes. |
| `Allocators.LoopEndsIff` | project2/test.cpp:44 | With its 16-bit index the loop over the holes comes to an end if and only if there are at most 32767. |
| `RotationLimit.LoopEndsInPool` | project2/test.cpp:44 | The loop ends in every state of a pool if and only if the pool has at most 65534 words. |
| `RotationLimit.ManyHoles` | project2/test.cpp:44 | Initializing 65535 words and allocating every second one leads to a list of 32768 holes, on which the loop does not end. |
| `Allocators.RotationOrder` | project2/test.cpp:69-76 | Over any sequence of calls, each with its own hole list, the answers are by rank the largest, second and third adequate hole in turn, starting with the largest. |
| `PoolRuns.AddressRoundTrip` | project2/MemoryManager/MemoryManager.cpp:76-84 | Dividing the address that `allocate` returns gives back the word index. |
| `PoolRuns.AllocateThenFree` | project2/MemoryManager/MemoryManager.cpp:61-89 | Freeing what was just allocated restores blocks and map byte for byte, with any callback. |
| `PoolRuns.RunPool` | project2/MemoryManager/MemoryManager.cpp:36-89 | Over every run of initialize, allocate and free, with any callback meeting the contract, the addresses handed out and not given back are exactly those of the live blocks. |
| `PoolRuns.FreesCommute` | project2/MemoryManager/MemoryManager.cpp:79-89 | Clearing the bits of two live blocks one after the other leaves the same map in either order. |
| `PoolRuns.FreeAll` | project2/MemoryManager/MemoryManager.cpp:79-89 | Freeing all blocks in any order restores the map that `initialize` left. |
| `PoolRuns.BitmapComplementsList` | project2/MemoryManager/MemoryManager.cpp:120-167 | A bit is clear if and only if its word lies in a listed hole; set bits and hole lengths add up to the pool. |
| `PoolRuns.BestFitChoice` | project2/MemoryManager/MemoryManager.cpp:184-200 | Among all maximal holes of the pool: fails only if none is adequate, else the start of the smallest, lowest address first. |
| `PoolRuns.WorstFitChoice` | project2/MemoryManager/MemoryManager.cpp:202-218 | The same for the largest. |
| `PoolRuns.AllocateBestFit` | project2/MemoryManager/MemoryManager.cpp:61-77 | `allocate` with `bestFit` fails if and only if no maximal hole holds the size in whole words, else reserves the least such number of words at the start of the best one. |
| `PoolRuns.AllocateWorstFit` | project2/MemoryManager/MemoryManager.cpp:61-77 | The same with `worstFit`. |
| `WallServer.RingPost` | ex8/wallserver.c:220-226 | Filling the tail slot and moving the pointers appends the message and drops the oldest one when the queue was full. |
| `WallServer.Wall.Post` | ex8/wallserver.c:220-226 | The queue holds the last messages posted since the wall was cleared, up to its size, in posting order. |
| `WallServer.Wall.Clear` | ex8/wallserver.c:195-199 | The queue is empty. |
| `WallServer.Wall.Show` | ex8/wallserver.c:176-187 | The listing is exactly those messages: the last ones posted, as many as the queue holds, in order. |
| `WallServer.Conn.Read` | ex8/wallserver.c:80-116 | For all chunk boundaries: the reply is the left-over bytes and what is received up to the first newline of a chunk, with its full length and the prefix that fits; the rest of that chunk stays for the next call, later chunks unread; -1 without a newline. |
| `WallServer.TakeWhere` | ex8/wallserver.c:83-115 | A call takes what was left over and everything up to the first byte 10 of a later chunk, and leaves what follows it; without one it takes nothing. |
| `WallServer.KeptPrefix` | ex8/wallserver.c:91-94 | Of a line the buffer keeps the prefix that leaves one byte for the NUL. |
| `WallServer.NextLineIff` | ex8/wallserver.c:83-106 | For all left-over bytes and chunks: the reply is the next line of the stream, or -1 when it has none, if and only if no newline was left over. |
| `WallServer.LinesSplit` | ex8/wallserver.c:103 | Lines are what bytes 10 end: this law fixes the lines of every stream. |
| `WallServer.HeardIff` | ex8/wallserver.c:80-116 | Successive replies are the lines of the stream if and only if no newline is left over at the start and every chunk holds at most one; otherwise there are fewer of them. |
| `WallServer.ReadAll` | ex8/wallserver.c:80-116 | Reading until -1 gives, on a fresh connection, the lines of the whole stream if and only if every chunk holds at most one newline. |
| `WallServer.LineLost` | ex8/wallserver.c:83-116 | Of the lines `a` and `b` arriving in one chunk the first call returns `a` and the second -1. |

## Left out

- Malformed WADs: `Wad.Wad.LoadWad` opens them, but every other method requires a well-formed tree with zero-padded, non-empty, slash-free names, plain files as map lumps, and non-empty lumps between header and list; the original would read outside its list on others.
- 32-bit wrap-around of WAD offsets: every image has to stay below 2^31 bytes.
- Wad.Wad.GetContents: does not model negative lengths and offsets, which the original passes on to the system call.
- Wad.Wad.WriteToFile: does not model negative lengths, which the original passes on to the system call and adds to the file's size; the length is that of the buffer.
- Real system calls: files are byte sequences, sockets are lists of received chunks, every transfer is complete; nothing is said about crashes.
- A file that cannot be opened (`loadWad` returns null) and failing reads and writes.
- MemoryManager.MemoryManager.Initialize: requires at most 65535 words, since a larger hole or hole count does not fit a cell of the hole list, and no more possible holes than the callback can count; sizes whose products overflow 32 bits are not modelled.
- MemoryManager.MemoryManager.Free: only the address of a live block or null; invalid and double frees are the caller's error.
- Allocators.HopesAndDreams.Allocate: requires at most 32767 holes, exactly the lists on which the original's loop ends (`Allocators.LoopEndsIff`).
- The pool memory itself, `dumpMemoryMap`, the getters and `setAllocator`.
- Wall server: prompts, name and message formatting in the `command` buffer, command dispatch, `parse_uint`, and the connection after a failed read, which the server closes.
- WallServer.Conn.Read: requires a size of at least 1; the server passes size 0 for a 79-byte name (`ex8/wallserver.c:212`), where the room becomes -1 before anything is copied.
- The FUSE adapter `project3/wadfs/wadfs.cpp`, and the exercises and projects outside the four files above.
