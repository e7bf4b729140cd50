# A verified model of the flattened device tree library

The repository loads a kernel together with a device tree and edits that tree in place with the C library in `libfdt/`. A
device tree is a tree of named nodes with named property values; a blob is that tree encoded in one byte buffer, as the
Devicetree Specification v0.4, chapter 5, lays it out. This project models the blob, its reader, both of its writers, and
the application of overlays, together with the memory functions of `string.c` and the blob search of `dtbs.c`.

## How it is built

Four layers, each with lemmas to the next:

- **Bytes** (`Bytes`, `Strings`, `CString`): big-endian cells, alignment, NUL-terminated strings, `memmove` and its kin.
- **Tokens** (`Tokens`, `Lexer`): the lexical elements of the structure block. `Ser` gives their bytes; `TagAt` is what
  `fdt_next_tag` returns, with its 32-bit sums.
- **Events and trees** (`Trees`, `Walk`, `Preorder`, `Decode`): `Flatten` gives the events of a tree, `Abs` those of a
  token list, with FDT_NOP gone and names looked up in the strings block. A location (`Loc`) is a node with everything
  around it, so that an offset can be said to name a node of a tree.
- **Blobs** (`Views`, `Edits`, then one or more modules for each C file): class `Blob` holds the buffer as an array and
  the header as a field. Its ghost field `v` is a reading of the bytes; `Readable()` and `Valid()` say that the bytes mean
  it. `Decode.ReadingExists` and `Decode.OneTree` show that the tree of a reading is a fact about the bytes alone.

Methods that only look take a ghost location and say which node or property comes back. Methods that edit say what the
new tree is, which offsets stay and which move, and exactly when they run out of room. Operations that combine several
calls (`Session.Run`, `FdtSwRun.Run`, `FdtRoPath.PathAndBack`, `FdtOverlay.ApplyAndFind`, `Laws`) have no function of
their own in C; they state what whole runs do. `Formats.OpenComplete` and `PreparedOverlays.ApplyResolves` state one call
in terms of the format and of the overlay's bytes.

An overlay is followed on paths of two kinds: `IndexPaths` says where a node is by the indices of children, and
`NamePaths` what a path of names means there. `Merge` says what the merged tree is. `Grafts` computes where each node of
both trees is in it (`MergeKept`, `Lands`), and `Marks` shows that this is the right place: a property that only one node
of the overlay is given shows up there and nowhere else. `SymbolPaths` carries the places through all fragments and all
symbols to the paths that are written; `AloneNodes` and `FoundPaths` say, from the base and the overlay alone, when
nothing shadows such a path.

`Levels` and `SymbolLevels` compute how full a blob is after each step of a merge, so that a lack of room is as exact for
`fdt_overlay_apply` and for a session as it is for one call.

What an overlay is when it is merged is told from its bytes as they were. `Labels` says how fixups are spelled and
`FixedCells` which cells they fill; `LocalFixups` says which cells local fixups list; `RenumberExact` and `Renumbered` say
what renumbering does, and when it can be done; `PreparedOverlays` puts the three stages together. `Targets` says which node
a fragment means, and `MergeSteps` what each fragment and each symbol does. `Formats` and `Samples` pin the numbers, the
names and the byte layout, and `EditMeanings` the edits of a session, so that no definition stands for itself.

`Bytes.U32` and `Bytes.I32` write out the 32-bit conversions. Buffers are shorter than 2^31 bytes, as an `int` offset needs.

Where code and documentation disagree the code is followed:

- `strlen` of `string.c` counts the terminator (`CString.Strlen`); the library is modelled on the `strlen` of ISO C
  (`CString.StrlenIso`), which its own code expects, and only `dtbs.c` on the repository's.
- A property length of 2^32 - 12 makes the reader stand still (`Lexer.StandingStill`); `Lexer.Progress` says exactly when
  the reader moves on.
- `fdt_create` accepts 40 bytes, but the space check keeps writers inside the buffer exactly from 48 bytes on
  (`FdtSw.CreateNeedsRoomForTheMap`). Only calls out of order get there: in order, `fdt_finish_reservemap` refuses every
  buffer below 64 bytes.
- The room check for strings of the sequential writer is exact exactly when the string and the table together are not
  longer than the whole buffer (`FdtSw.RoomCheckExact`). `FdtSw.FindAddString` and its callers ask for that, for a name
  that is not in the table; names below 64 bytes never break it (`FdtSwRun.ShortNamesFit`).
- `fdt_resize` does not copy the structure (`FdtSw.Resize` says exactly what survives).
- The room check of `fdt_setprop_inplace_namelen_partial` is exact for values of every length exactly when offset and length
  do not wrap together (`FdtWip.PartialCheckExact`); `FdtWip.CellBeforeValue` is an input where, with 32-bit pointers, four
  bytes in front of the value are written, as a fixup offset of 2^32 - 4 makes it do.
- `fdt_blocks_misordered_` adds 32-bit numbers (`Views.Misordered`); `Views.OrderTest` says when that finds the same.
- `fdt_open_into` reads `boot_cpuid_phys` from behind the new header when it reorders in place
  (`FdtOpen.Rebuild` says which cell it is).
- `fdt_stringlist_contains` reads one byte past the list (`FdtRoStrings.StringlistContains`). It and the search agree
  exactly unless that byte is a NUL and the key is the unterminated end of the list (`FdtRoStrings.ListsAgree`); for the
  empty key and the empty list they differ (`FdtRoStrings.EmptyKeyDiffers`).
- `fdt_get_path` leaves its buffer exactly for an offset that is no node and not in front of the end of the root, when the
  header is good and the buffer has at least two bytes: there the loop that drops names reads in front of the buffer
  (`FdtRoPath.GetPath`, result `inside`; `FdtRoPath.TooFarAtTwelve` is an input).
- A path that is written for a symbol leads to the merged node exactly when no earlier sibling answers to one of its
  components (`SymbolPaths.SymbolFinds`). `FoundPaths.ShadowedByUnit` is an input where one does: an overlay that brings
  both `a` and `a@1`. `FoundPaths.SymbolUnmistaken` is a condition on names under which none does.

## Model

| member | source | states |
|---|---|---|
| `CString.Memmove` | string.c:203-222 | overlapping or not, the destination holds what the source held and nothing else changes |
| `CString.MemmoveBetween` | string.c:203-222 | the same between two buffers or inside one |
| `CString.Memcpy` | string.c:185-193 | the destination holds the source, nothing else changes |
| `CString.Memset` | string.c:167-174 | a stretch is filled, nothing else changes |
| `CString.Memcmp` | string.c:231-240 | zero exactly when the stretches are equal, else the difference of the first bytes that differ |
| `CString.Memchr` | string.c:135-144 | found exactly when the byte is there, and then its first place |
| `CString.Strncmp` | string.c:41-55 | the order at the first difference, unless a common NUL or the length comes first |
| `CString.CommonFull` | string.c:41-55 | a comparison with a terminated string over its whole length finds a difference exactly when the bytes differ |
| `CString.Strlen` | string.c:9-17 | the length with the terminator |
| `CString.Strnlen` | string.c:19-27 | the length, or the bound if that is smaller |
| `Dtbs.FindStr` | dtbs.c:12-25 | 1 exactly when the string and its NUL stand in the area and end before its last byte |
| `Dtbs.ContainsIs` | dtbs.c:12-25 | told by the bytes: some stretch of the area is the string and its NUL, and the last byte of the area is not part of it |
| `Dtbs.LastByteMissed` | dtbs.c:14-18 | a string that ends with the last byte is missed |
| `Dtbs.FindDtb` | dtbs.c:27-47 | terminates on a chain of blobs of positive size, and returns the first one that has the string, with its size |
| `Dtbs.FirstWithIsFirst` | dtbs.c:31-46 | the blob found has the string and no blob before it has |
| `Dtbs.LaidChain` | dtbs.c:39-42 | blobs laid one after the other, padded to four bytes and ended by another word, are such a chain |
| `Dtbs.FindsFirst` | dtbs.c:27-47 | over any concatenation of blobs: the first blob that has the string is found with its exact size, else nothing |
| `Fdt.OffsetPtr` | libfdt/fdt.c:77-92 | with all its 32-bit sums, accepts exactly the stretches inside the structure block |
| `Formats.HeaderAccepted` | libfdt/fdt.c:58-75 | with the numbers of the format: accepted is exactly magic 0xd00dfeed from version 16 on with a last compatible version up to 17, or magic 0x2ff20112 with a structure; which error every other header gets |
| `Formats.EditingAccepted` | libfdt/fdt_rw.c:70-83 | the same for the editing functions and the sequential writer: version 17, blocks in order |
| `Formats.ErrorNumbers` | libfdt/libfdt.h:61-136 | the numbers behind the error names, the phandle that names nothing, the erased magic |
| `Formats.RegionOf` | libfdt/fdt.c:77-92 | before version 17 reading may go up to the end of the blob, whatever the size field says; from then on up to the end of the structure block |
| `Fdt.NextTag` | libfdt/fdt.c:94-142 | is the lexer `TagAt`, error cases included |
| `Formats.TagIs` | libfdt/fdt.c:94-142 | for each tag and each kind of damage: the tag and the next offset, or which error |
| `Formats.NodeTagIs` | libfdt/fdt.c:112-119 | the name of a node ends at its first NUL, and the next tag is at the next multiple of four |
| `Lexer.NextTagAt` | libfdt/fdt.c:94-142 | at the offset of a token, lexing gives that token and the offset of the next |
| `Lexer.Progress` | libfdt/fdt.c:117-141 | a tag before the end is followed by an aligned offset in the block; it moves on exactly when the length cell is not 2^32 - 12 |
| `Lexer.StandingStill` | libfdt/fdt.c:121-126 | a property with that length makes the reader stand still |
| `Fdt.CheckNodeOffset` | libfdt/fdt.c:144-151 | the offset after the tag exactly for an aligned offset of an FDT_BEGIN_NODE |
| `Fdt.CheckPropOffset` | libfdt/fdt.c:153-160 | the same for FDT_PROP |
| `Formats.OffsetsAre` | libfdt/fdt.c:144-160 | exactly which offsets both accept |
| `Fdt.NextNode` | libfdt/fdt.c:162-200 | is one step of the preorder walk: the next node with its depth, the end of the subtree with depth -1, or the end of the tree |
| `Walk.AdvanceNext` | libfdt/fdt.c:173-199 | searching the events tag by tag finds the next location in preorder |
| `Preorder.WalkLocs` | libfdt/fdt.c:162-200 | iterating the step over a subtree yields its preorder list with the right depths, and then leaves the subtree |
| `Preorder.AllLocs` | libfdt/fdt.c:162-200 | the preorder list holds every node of the tree and nothing else |
| `Preorder.OffsetRank` | libfdt/fdt.c:162-200 | offsets are ordered as preorder is, and an offset names one node |
| `Preorder.NodeHasOffset` | libfdt/fdt.c:162-200 | every node has an offset |
| `FdtRoTree.EveryNode` | libfdt/fdt.c:162-200 | iterating from -1 visits every node once, in preorder, with its depth, at increasing offsets |
| `Fdt.FirstSubnode` | libfdt/fdt.c:202-211 | the first child, or none |
| `Fdt.NextSubnode` | libfdt/fdt.c:213-228 | the next sibling, found by walking over the whole subtree in between, or none |
| `Walk.LeaveChild` | libfdt/fdt.c:213-228 | leaving child i leads to child i + 1, or out of the parent |
| `Fdt.FindString` | libfdt/fdt.c:230-240 | the least offset of the string, or -1 |
| `Strings.FindStrLeast` | libfdt/fdt.c:230-240 | no earlier occurrence is missed |
| `Decode.ReadingExists` | libfdt/fdt.c:94-142 | a blob has a reading with tree t exactly when its bytes decode to t |
| `Decode.OneTree` | libfdt/fdt.c:94-142 | the bytes decode to at most one tree |
| `Decode.SameBytesSameTree` | libfdt/fdt.c:94-142 | two readings of the same bytes have the same tree |
| `Samples.SampleReads` | libfdt/fdt.c:94-142 | a blob written out byte by byte decodes to one given tree and to no other |
| `Samples.CellBytes` | libfdt/libfdt_env.h:74-93 | a cell has its most significant byte first |
| `Samples.EntryBytes` | libfdt/fdt.h:76-79 | a reserve entry is the address and the size, eight bytes each |
| `FdtRo.NodenameEq` | libfdt/fdt_ro.c:58-76 | a node answers to its name, and to its name without the unit address |
| `Formats.AnswersTo` | libfdt/fdt_ro.c:58-76 | exactly when: the name itself, or, for a string without @, what stands before an @ in the name |
| `FdtRo.StringEq` | libfdt/fdt_ro.c:83-89 | the string at the offset is exactly the given one |
| `FdtRo.FirstPropertyOffset` | libfdt/fdt_ro.c:253-261 | the first property, FDT_NOPs skipped, or none |
| `FdtRo.NextPropertyOffset` | libfdt/fdt_ro.c:263-269 | the next property, or none |
| `FdtRo.GetPropertyNamelen` | libfdt/fdt_ro.c:292-314 | the first property of that name and its length, or the error |
| `FdtRo.SubnodeOffsetNamelen` | libfdt/fdt_ro.c:158-175 | the first direct child that answers to the name, however deep the walk goes in between |
| `FdtRoValues.GetpropByOffset` | libfdt/fdt_ro.c:336-347 | the name and the value of the property |
| `FdtRoValues.Getprop` | libfdt/fdt_ro.c:349-353 | the value of the first property of that name |
| `FdtRoPath.GetName` | libfdt/fdt_ro.c:233-251 | the name of the node and its length |
| `FdtRoPath.GetPath` | libfdt/fdt_ro.c:389-439 | stays in its buffer exactly unless the offset is no node and not in front of the end of the root; succeeds exactly when the buffer holds the path and its NUL (at least 2 bytes) and then writes exactly that, also when longer siblings were skipped on the way |
| `Samples.PathsPrinted` | libfdt/fdt_ro.c:389-439 | what is printed for the root, a child and a grandchild |
| `FdtRoPath.TooFarAtTwelve` | libfdt/fdt_ro.c:403-408 | in the blob of one unnamed node the offset 12 is such an offset |
| `FdtRoPath.PopName` | libfdt/fdt_ro.c:403-408 | going back over the last component |
| `FdtRoPath.PathOffset` | libfdt/fdt_ro.c:183-226 | each component takes the first child that answers to it; the node, or not found |
| `FdtRoPath.ResolveAppend` | libfdt/fdt_ro.c:206-223 | resolving a path is resolving its parts one after the other |
| `FdtRoPath.PathRoundTrip` | libfdt/fdt_ro.c:183-226 | the printed path of a node leads back to it exactly when no component is shadowed by an earlier sibling |
| `FdtRoPath.PathAndBack` | libfdt/fdt_ro.c:183-439 | the two calls: looking the printed path up gives the offset back exactly when no component is shadowed, and printing fails exactly for want of room |
| `FdtRoTree.SupernodeAtdepth` | libfdt/fdt_ro.c:441-475 | the last node met at the depth is the ancestor at that depth |
| `Preorder.NextAncestors` | libfdt/fdt_ro.c:452-467 | the next node in preorder shares every ancestor above its own depth |
| `FdtRoTree.NodeDepth` | libfdt/fdt_ro.c:477-486 | the depth of the node |
| `FdtRoTree.ParentOffset` | libfdt/fdt_ro.c:488-496 | the parent, or not found for the root |
| `FdtRoPhandle.GetPhandle` | libfdt/fdt_ro.c:355-370 | the one-cell phandle property, else the one-cell linux,phandle property, else 0 |
| `Targets.PhandleIs` | libfdt/fdt_ro.c:355-370 | told by the properties: which of them counts when one is missing or malformed |
| `FdtRoPhandle.GetMaxPhandle` | libfdt/fdt_ro.c:91-115 | at least every phandle that is not all ones, and 0 or one of them |
| `FdtRoPhandle.NodeOffsetByPhandle` | libfdt/fdt_ro.c:525-548 | the first node in preorder with that phandle, or not found |
| `Targets.PhandleMeans` | libfdt/fdt_ro.c:525-548 | that node has the phandle and no node that opens before it does; none is found exactly when no node has it |
| `FdtRoStrings.StringlistContains` | libfdt/fdt_ro.c:550-565 | 1 exactly for a string of the list, or for an unterminated end of it that a NUL happens to follow |
| `FdtRoStrings.StringlistCount` | libfdt/fdt_ro.c:567-590 | the number of strings, or the error of a list that is not terminated |
| `FdtRoStrings.StringlistSearch` | libfdt/fdt_ro.c:592-620 | the least index of the string; an unterminated list is an error only when the string is not found before its end |
| `FdtRoStrings.StringlistGet` | libfdt/fdt_ro.c:622-665 | the string at an index below the number of strings, and only those |
| `FdtRoStrings.ListsAgree` | libfdt/fdt_ro.c:550-620 | contains and search agree exactly when the key is a string of the list, or is not its unterminated end, or no NUL follows |
| `FdtRoStrings.EmptyKeyDiffers` | libfdt/fdt_ro.c:555-563 | the empty key is contained in the empty list before a NUL, and a search does not find it |
| `FdtRoStrings.ValueIs` | libfdt/fdt_ro.c:578-587 | every value is its strings and something without a NUL |
| `FdtRoStrings.StrsOfJoined` | libfdt/fdt_ro.c:578-587 | a list of strings that is written can be read back |
| `FdtRw.RwCheckHeader` | libfdt/fdt_rw.c:70-83 | the error, or a version above 17 written down as 17 |
| `Views.OrderTest` | libfdt/fdt_rw.c:58-68 | the test with its 32-bit sums accepts exactly ordered blocks, provided no sum wraps |
| `FdtRw.Splice` | libfdt/fdt_rw.c:97-110 | no room exactly when used bytes and growth exceed totalsize; else everything behind the place moves |
| `FdtRw.SpliceStruct` | libfdt/fdt_rw.c:125-137 | the same for the structure block, whose size and the strings offset follow |
| `Edits.StructEdit` | libfdt/fdt_rw.c:125-137 | an edit of the structure bytes is the edit of the tokens, and the blob stays editable |
| `Edits.SplicedOffsets` | libfdt/fdt_rw.c:97-137 | offsets before the edit stay, those behind it move by exactly the change of size |
| `Edits.NodeKept` | libfdt/fdt_rw.c:221-247 | a node that starts at or before the edited node keeps its offset |
| `FdtRw.FindAddString` | libfdt/fdt_rw.c:152-172 | the name reads back at the offset; a name that is there adds no bytes; the other strings stay |
| `Interning.NameStable` | libfdt/fdt_rw.c:152-172 | over a run of additions each name keeps reading back at the offset it was given |
| `Interning.PresentAddsNothing` | libfdt/fdt_rw.c:159-162 | a name that is there, also as the end of a longer one, adds nothing |
| `FdtRw.ResizeProperty` | libfdt/fdt_rw.c:203-219 | the value cut or extended, keeping what was there |
| `FdtRw.AddProperty` | libfdt/fdt_rw.c:221-247 | a new property in front of the others, with the bytes that were there as value |
| `FdtRw.SetpropPlaceholder` | libfdt/fdt_rw.c:272-288 | the property has the new length; no room exactly when the blocks would end behind totalsize, and then the tree is unchanged |
| `FdtRw.Setprop` | libfdt/fdt_rw.c:290-303 | the first property of that name is the value, or a new one in front is; all else is unchanged and offsets up to the node stay; no room exactly when it does not fit, and how full the blob is afterwards either way |
| `FdtRw.Appendprop` | libfdt/fdt_rw.c:305-330 | the old value followed by the new bytes, or a new property |
| `FdtRw.Delprop` | libfdt/fdt_rw.c:332-345 | the first property of that name is gone and the used bytes shrink by its aligned size |
| `FdtRwNodes.AddSubnodeNamelen` | libfdt/fdt_rw.c:347-386 | exists exactly when a child answers to the name; else an empty node becomes the first child after the properties |
| `FdtRwNodes.DelNode` | libfdt/fdt_rw.c:393-405 | exactly the tokens of the subtree are gone; the tree loses that child, and without its root nothing is left but the end, the strings and the reserve map |
| `FdtRwNodes.NoNodeLeft` | libfdt/fdt.c:144-151 | in what is left without a root every node offset is refused |
| `FdtRwBlocks.SpliceMemRsv` | libfdt/fdt_rw.c:112-123 | the blocks behind the reserve map move |
| `FdtRwBlocks.NumMemRsv` | libfdt/fdt_ro.c:125-132 | the number of entries before the first one of size zero |
| `Formats.MapIs` | libfdt/fdt_ro.c:125-132 | the bytes of a reserve map: entries of sixteen bytes, none of size zero, and then one of size zero |
| `FdtRwBlocks.AddMemRsv` | libfdt/fdt_rw.c:174-189 | an entry at the end of the map; one of size zero ends the map instead |
| `FdtRwBlocks.DelMemRsv` | libfdt/fdt_rw.c:191-201 | the entry is gone, or there is none |
| `FdtRwBlocks.Packblocks` | libfdt/fdt_rw.c:407-427 | three moves put the blocks next to each other; no move overwrites a block that is still to be moved |
| `FdtRwBlocks.PackingInPlace` | libfdt/fdt_rw.c:407-427 | for ordered blocks packed in place that holds |
| `FdtRwBlocks.Pack` | libfdt/fdt_rw.c:493-505 | the header and every byte of the packed blob: no gap after byte 40, nothing behind the strings; tree, strings and reserve map stay |
| `FdtOpen.StructSize` | libfdt/fdt_rw.c:443-451 | the walk to FDT_END finds the size of the structure of a blob older than version 17 |
| `FdtOpen.MoveInto` | libfdt/fdt_rw.c:453-462 | without reordering, the blob is moved and its header updated |
| `FdtOpen.Rebuild` | libfdt/fdt_rw.c:464-491 | with reordering, the blocks are packed behind the old blob and moved to the front |
| `FdtOpen.OpenInto` | libfdt/fdt_rw.c:429-491 | from either path a version 17 blob of the new size with the same tree, strings and reserve map, and where its blocks end; no room exactly when the buffer is smaller than needed |
| `Formats.OpenComplete` | libfdt/fdt_rw.c:429-491 | every complete blob from version 16 on, with the numbers of the format: it succeeds exactly when the buffer is not smaller than the size computed from header, entries and tokens |
| `Formats.OlderIsComplete` | libfdt/fdt_rw.c:443-451 | there are such blobs of version 16: each complete one of version 17 is one when its header says so |
| `Laws.AddThenFind` | libfdt/fdt_rw.c:347-386 | in a tree that a node was added to, looking its name up gives the offset it was added at |
| `Laws.AddThenDelete` | libfdt/fdt_rw.c:347-405 | taking a subtree out of a blob that it was just added to restores every token, string and header field |
| `Laws.AddFindDelete` | libfdt/fdt_rw.c:347-405 | the three calls: added exactly when the name is free and the node fits, found where it was added, and deleted without a trace |
| `Laws.PackTwice` | libfdt/fdt_rw.c:493-505 | what packing does to header and bytes changes nothing the second time |
| `Laws.NopAndDelete` | libfdt/fdt_wip.c:128-139 | overwriting a node with FDT_NOP and deleting it leave the same tree |
| `Session.DoEdit` | libfdt/fdt_rw.c:174-405 | one edit refines the edit of the abstract tree and reserve map; it succeeds exactly when the edit can be done and there is room, reports no room exactly when only that is missing, and a failed one changes neither |
| `Session.Run` | main.c:58-62 | open, edits, pack: edits that fail are passed over as the boards do, each result says whether it failed, and the packed blob holds what exactly the others make of the abstract tree and reserve map; with room for all edits none fails for lack of it; an error of the opening leaves the buffer as it was |
| `EditMeanings.SetMeans` | libfdt/fdt_rw.c:290-303 | setting a property: that value at the node that the path leads to, no other property and no other node changes |
| `EditMeanings.AppendMeans` | libfdt/fdt_rw.c:305-330 | appending: the old value, if any, and the new bytes |
| `EditMeanings.DeleteMeans` | libfdt/fdt_rw.c:332-345 | deleting: the first property of that name is gone; refused when there is none |
| `EditMeanings.AddMeans` | libfdt/fdt_rw.c:347-386 | adding a node: an empty first child, refused exactly when a child answers to the name |
| `EditMeanings.RemoveMeans` | libfdt/fdt_rw.c:393-405 | removing a node: its parent keeps the other children in order |
| `EditMeanings.ReserveMeans` | libfdt/fdt_rw.c:174-201 | entries of the reserve map: at the end, or taken out, refused exactly when there is none |
| `EditMeanings.InOrderMeans` | libfdt/fdt_rw.c:174-405 | edits take effect in order, and refused ones have none |
| `EditMeanings.ToldMeans` | libfdt/fdt_rw.c:174-405 | what each result of a session says: 0 is an edit that was possible there and then, another error than a lack of room one that was not |
| `Session.BulkSuffices` | libfdt/fdt_rw.c:97-110 | how much room is enough for one edit, whatever it is applied to |
| `FdtWip.NopRegion` | libfdt/fdt_wip.c:96-102 | whole cells of FDT_NOP, nothing else changes |
| `FdtWip.NopProperty` | libfdt/fdt_wip.c:104-116 | the tree that deleting the property leaves, with as many bytes of FDT_NOP in its place |
| `Fdt.NodeEndOffset` | libfdt/fdt_wip.c:118-126 | the offset just past the subtree |
| `FdtWip.NopNode` | libfdt/fdt_wip.c:128-139 | the tree that deleting the node leaves, the root included, with as many bytes of FDT_NOP in its place |
| `FdtWip.SetpropInplacePartial` | libfdt/fdt_wip.c:58-76 | those bytes of the value change and every token keeps its offset; refused exactly when they do not fit |
| `FdtWip.PartialCheckExact` | libfdt/fdt_wip.c:69-71 | the 32-bit room check refuses exactly what does not fit unless the sum wraps to within the value |
| `FdtWip.CellBeforeValue` | libfdt/fdt_wip.c:69-75 | an offset of 2^32 - 4 is let through, and with 32-bit pointers it leads to the four bytes before the value |
| `FdtOverlayPhandles.SetpropInplace` | libfdt/fdt_wip.c:78-94 | the value is replaced exactly when the length is the same |
| `FdtSw.Create` | libfdt/fdt_sw.c:88-108 | an empty blob in the making |
| `FdtSw.CreateNeedsRoomForTheMap` | libfdt/fdt_sw.c:73-108 | the space check of fdt_grab_space_ keeps writers in a new buffer exactly from 48 bytes on |
| `FdtSw.Resize` | libfdt/fdt_sw.c:110-140 | inside one memory, for separate, equal and overlapping buffers: what is being written survives exactly when it fits and its structure bytes are at the same place in the new buffer |
| `FdtSw.HeadAndTail` | libfdt/fdt_sw.c:125-133 | in the order of moves chosen both parts arrive as they were, also when the buffers overlap |
| `FdtSw.AddReservemapEntry` | libfdt/fdt_sw.c:142-163 | an entry at the end, only before the structure is begun |
| `FdtSw.FinishReservemap` | libfdt/fdt_sw.c:165-168 | an entry of zeros |
| `FdtSw.GrabSpace` | libfdt/fdt_sw.c:73-86 | room exactly when structure and strings fit, also before the map is finished |
| `FdtSw.BeginNode` | libfdt/fdt_sw.c:170-184 | the node is begun, or there is exactly no room |
| `FdtSw.EndNode` | libfdt/fdt_sw.c:186-198 | the node is ended, or there is exactly no room |
| `FdtSw.FindAddString` | libfdt/fdt_sw.c:200-221 | a negative offset that names the string; a string that is there adds no bytes; 0 exactly when a new one does not fit |
| `FdtSw.RoomCheckExact` | libfdt/fdt_sw.c:211-216 | the 32-bit room check refuses exactly what does not fit if and only if table and string do not exceed the buffer |
| `FdtSw.RebaseGrow` | libfdt/fdt_sw.c:200-221 | negative offsets name the same strings when the table grows at its front |
| `Interning.DownStable` | libfdt/fdt_sw.c:200-221 | over a run of additions each negative offset keeps naming its string |
| `FdtSw.PropertyPlaceholder` | libfdt/fdt_sw.c:223-243 | a property whose value is what was in the buffer |
| `FdtSw.Property` | libfdt/fdt_sw.c:245-255 | a property with the value, or there is exactly no room |
| `FdtSw.Relocate` | libfdt/fdt_sw.c:279-292 | the walk adds the size of the table to every name offset |
| `FdtSw.Finish` | libfdt/fdt_sw.c:257-300 | when the calls spell a tree, the finished blob holds that tree and the reserve entries |
| `FdtSwRun.Run` | libfdt/fdt_sw.c:88-300 | any run of the writer: success exactly when header, entries, structure and strings fit, and then the exact header, and a run that spells a tree reads back as exactly that tree and the entries |
| `FdtSwRun.ShortNamesFit` | libfdt/fdt_sw.c:211-216 | in a run whose names are below 64 bytes the room check for strings never wraps |
| `FdtOverlayPhandles.PhandleAddOffset` | libfdt/fdt_overlay.c:110-133 | the phandle moves up, or it is malformed, or it would leave the range |
| `FdtOverlayPhandles.AdjustNodePhandles` | libfdt/fdt_overlay.c:150-171 | every phandle of the subtree moves up in place, or the first error |
| `FdtOverlayPhandles.AdjustLocalPhandles` | libfdt/fdt_overlay.c:187-193 | the same for the whole overlay |
| `RenumberExact.AdjustExact` | libfdt/fdt_overlay.c:110-193 | succeeds exactly when each phandle of each node is one cell and stays below all ones |
| `RenumberExact.AllCanMoveAt` | libfdt/fdt_overlay.c:150-171 | that is said of every node, however deep |
| `RenumberExact.MoveRefused` | libfdt/fdt_overlay.c:110-133 | the error says which of the two it was |
| `FdtOverlayPhandles.UpdateProperty` | libfdt/fdt_overlay.c:223-276 | the listed cells of one property move up; one outside the property is refused |
| `FdtOverlayPhandles.UpdateLocalNodeReferences` | libfdt/fdt_overlay.c:214-299 | every listed reference of the subtree moves up in place, and the fixups stay as they are |
| `FdtOverlayPhandles.UpdateLocalReferences` | libfdt/fdt_overlay.c:318-336 | the same for the whole overlay, or nothing when it has no local fixups |
| `RenumberExact.UpdateExact` | libfdt/fdt_overlay.c:214-299 | succeeds exactly when each fixup node is about a node of the overlay and each cell it lists is inside its property |
| `RenumberExact.UpdateRefused` | libfdt/fdt_overlay.c:229-298 | every other list of local fixups is a bad overlay |
| `LocalFixups.CellsOfListed` | libfdt/fdt_overlay.c:247-255 | a value that is the big-endian cells of some offsets is read as exactly those offsets, each once and in order |
| `LocalFixups.ListedOfCells` | libfdt/fdt_overlay.c:247-255 | and every value of whole cells is such a list |
| `LocalFixups.RefsAtOnce` | libfdt/fdt_overlay.c:214-299 | the references of a property are the cells that the one fixup about it lists, the names looked up on the way |
| `LocalFixups.RefsAtOnly` | libfdt/fdt_overlay.c:214-299 | and no reference is taken from anywhere else |
| `LocalFixups.RefsAtNone` | libfdt/fdt_overlay.c:214-299 | a property that no fixup is about has none |
| `IndexPaths.NodeStays` | libfdt/fdt_overlay.c:214-299 | an edit that moves nothing keeps the offset of every node |
| `References.CellsListed` | libfdt/fdt_overlay.c:247-275 | a cell listed once and overlapped by no other moves up once |
| `References.CellsElsewhere` | libfdt/fdt_overlay.c:247-275 | a byte outside the listed cells is unchanged |
| `References.UpdateNodeGet` | libfdt/fdt_overlay.c:214-299 | in every node of the subtree exactly the cells that the fixups list are changed |
| `References.AdjustPropsGet` | libfdt/fdt_overlay.c:150-171 | a phandle moves up by the delta and stays below all ones; other properties are unchanged |
| `References.NodesKept` | libfdt/fdt_overlay.c:110-336 | a phandle in use leads to the same node after renumbering |
| `References.ReferencesKept` | libfdt/fdt_overlay.c:110-336 | every local reference names the node it named before |
| `References.NoCollision` | libfdt/fdt_overlay.c:110-133 | renumbered phandles lie above the delta, are not all ones, and are equal only if they were |
| `FdtOverlay.NewPhandlesAreNew` | libfdt/fdt_overlay.c:813-823 | no renumbered phandle is a phandle of the base |
| `FdtOverlayFixups.SplitFixup` | libfdt/fdt_overlay.c:445-474 | the path, the property and the offset of a fixup, or that it is malformed |
| `Labels.SpellingParses` | libfdt/fdt_overlay.c:445-474 | a fixup is read as the path, the property and the offset that it was spelled from |
| `Labels.ParsedSpelling` | libfdt/fdt_overlay.c:445-474 | and nothing else is read as a fixup |
| `Labels.DigitsRead` | libfdt/fdt_overlay.c:468-470 | an offset written in decimal digits is that offset |
| `Labels.DecimalIs` | libfdt/fdt_overlay.c:468-470 | what digits mean, the largest 32-bit number when they write a larger one |
| `Labels.FixupInTurn` | libfdt/fdt_overlay.c:421-484 | a value is taken string by string: one that is not spelled as fixups are, or that no NUL ends, is a bad overlay; else it is resolved, and then the rest |
| `FdtOverlayFixups.FixupOnePhandle` | libfdt/fdt_overlay.c:361-400 | the cell becomes the phandle of the labelled node of the base, or the error |
| `FdtOverlayFixups.FixupPhandle` | libfdt/fdt_overlay.c:421-484 | the same for every fixup of a label |
| `FdtOverlayFixups.FixupPhandles` | libfdt/fdt_overlay.c:503-529 | the same for every label |
| `Labels.PropsAreRefs` | libfdt/fdt_overlay.c:503-529 | properties that list fixups, string by string, resolve them one after the other, in that order, each under its label |
| `Labels.AllResolvedList` | libfdt/fdt_overlay.c:421-529 | and whatever is resolved without an error is such a list |
| `FixedCells.LabelIs` | libfdt/fdt_overlay.c:376-383 | a label means the phandle of the node that the base symbol leads to; it is refused when there is none |
| `FixedCells.FixOneGet` | libfdt/fdt_overlay.c:385-399 | one fixup changes exactly four bytes of exactly one property of one node |
| `FixedCells.FilledLast` | libfdt/fdt_overlay.c:503-529 | after all of them a cell that no later fixup overlaps holds the phandle of its label |
| `FixedCells.FilledElsewhere` | libfdt/fdt_overlay.c:503-529 | and a byte that no fixup names is unchanged |
| `FixedCells.FixAllExact` | libfdt/fdt_overlay.c:503-529 | succeeds exactly when there are no fixups, or they are spelled as fixups are, each label leads to a phandle and each cell is inside a property |
| `FixedCells.FixRefused` | libfdt/fdt_overlay.c:361-400 | which error each other fixup gets |
| `FdtOverlayMerge.ApplyProp` | libfdt/fdt_overlay.c:556-572 | one property of the overlay overrides the base |
| `FdtOverlayMerge.EnsureKid` | libfdt/fdt_overlay.c:575-587 | a child that answers to the name, new or old |
| `FdtOverlayMerge.ApplyNode` | libfdt/fdt_overlay.c:550-595 | refines the recursive merge of trees and fails exactly when the merge does not fit; all around the target is unchanged and the target and its ancestors keep their offsets |
| `Anchors.HeldByEdit` | libfdt/fdt_overlay.c:550-595 | an edit after a node keeps the offsets of it and of its ancestors |
| `Anchors.HeldAbove` | libfdt/fdt_overlay.c:589-591 | so an edit under a child keeps those of the parent |
| `Merge.MergePropsGet` | libfdt/fdt_overlay.c:556-572 | properties of the overlay override, all others are unchanged |
| `Merge.MergeKidsKeeps` | libfdt/fdt_overlay.c:574-592 | children that the overlay does not name are unchanged |
| `Merge.MergeKidsMerges` | libfdt/fdt_overlay.c:574-592 | a child that the overlay names once is merged with it |
| `Merge.MergeKidsAdds` | libfdt/fdt_overlay.c:574-592 | a child that the base does not have is added |
| `Grafts.MergeKept` | libfdt/fdt_overlay.c:550-595 | where each node of the base is in the merged tree: under the same names, with things merged into it or as it was |
| `Grafts.GraftKept` | libfdt/fdt_overlay.c:550-595 | the same when something is merged into another node |
| `Marks.KeptReprop` | libfdt/fdt_overlay.c:556-572 | that is the node: other properties there before the merge are other properties there after it, and nowhere else |
| `Grafts.Lands` | libfdt/fdt_overlay.c:550-595 | where each node of the overlay is merged and what stood there just before; the names on the way answer to its own, and the overlay node is merged into it |
| `Marks.MarkLands` | libfdt/fdt_overlay.c:550-595 | that is the node: a property that only one overlay node is given shows at its place with its value, and nothing else in the merged tree changes |
| `AloneNodes.KidFound` | libfdt/fdt_overlay.c:574-592 | looking up a child of the overlay that no sibling answers for finds the place it was merged at, and only it was merged there |
| `AloneNodes.AloneFound` | libfdt/fdt_overlay.c:550-595 | the same for a node at any depth: the path to its place is not shadowed in the merged tree |
| `FoundPaths.FoundKept` | libfdt/fdt_overlay.c:550-595 | a path that finds a node of the base finds it after the merge, if no overlay node answers to a component without being called so |
| `FoundPaths.FoundLands` | libfdt/fdt_overlay.c:550-595 | under the same condition the names of an overlay node find its place |
| `FoundPaths.ShadowedByUnit` | libfdt/fdt_overlay.c:574-592 | without it they may not: merging a and a@1 into an empty base leaves a behind a@1, which answers to /a |
| `FdtOverlayMerge.GetTargetPhandle` | libfdt/fdt_overlay.c:22-35 | the target phandle, 0, or all ones when malformed |
| `FdtOverlayMerge.GetTarget` | libfdt/fdt_overlay.c:52-94 | the target by phandle, else by path, or the error |
| `Targets.TargetByPhandle` | libfdt/fdt_overlay.c:22-94 | a target of the four bytes of a phandle is the first node in preorder that has it, and not found exactly when no node has |
| `Targets.TargetMalformed` | libfdt/fdt_overlay.c:22-35 | a target that is not four bytes, or all ones, is refused |
| `Targets.TargetByPath` | libfdt/fdt_overlay.c:52-94 | a target path counts when there is no target or it is 0: the node it leads to, or not found; without one the overlay is bad |
| `FdtOverlayMerge.OverlayMerge` | libfdt/fdt_overlay.c:612-642 | refines merging the fragments in order; children without an __overlay__ child are skipped; returns the first failure, a missing target or a merge that does not fit |
| `MergeSteps.FragmentStep` | libfdt/fdt_overlay.c:617-639 | one fragment: merged at the path of its target into what stands there, and nowhere else; a child that is none is passed over |
| `MergeSteps.FragmentsInTurn` | libfdt/fdt_overlay.c:617-639 | each fragment is merged into what those before it leave |
| `MergeSteps.FragmentsExact` | libfdt/fdt_overlay.c:612-642 | given room, succeeds exactly when each fragment finds its target in the tree that those before it leave |
| `Levels.BulkFits` | libfdt/fdt_overlay.c:550-595 | how much room is enough to merge an overlay node, whatever it is merged into |
| `Levels.FragsBulkFits` | libfdt/fdt_overlay.c:612-642 | how much room is enough for all fragments |
| `FdtOverlaySymbols.GetPathLen` | libfdt/fdt_overlay.c:644-670 | the length of what fdt_get_path prints |
| `FdtOverlaySymbols.SplitSymbol` | libfdt/fdt_overlay.c:723-749 | the fragment and the relative path of a symbol, or the error |
| `Symbols.ParsedAsSpelled` | libfdt/fdt_overlay.c:723-749 | a value is read as fragment f and node r exactly when it is `/` f `/__overlay__/` r and one NUL, with no NUL in f and r and no slash in f |
| `Symbols.RefusedSymbols` | libfdt/fdt_overlay.c:723-746 | and is refused exactly when it is not spelled so: as a bad value when it is not one terminated absolute path |
| `FdtOverlaySymbols.FillSymbol` | libfdt/fdt_overlay.c:793-807 | target path, slash, relative path and two NULs fill the room exactly |
| `Targets.WrittenPathIs` | libfdt/fdt_overlay.c:793-807 | that path, told by the target path of the fragment, or by where the target stands: a target `/` adds nothing in front of the slash |
| `FdtOverlaySymbols.AddOneSymbol` | libfdt/fdt_overlay.c:718-808 | one symbol of the overlay becomes a symbol of the base |
| `FdtOverlaySymbols.OverlaySymbolUpdate` | libfdt/fdt_overlay.c:688-811 | the same for all symbols; the symbols node is made when there is none and keeps its offset; returns the first failure, a symbol that cannot be added or one that does not fit |
| `MergeSteps.AddSymbolsExact` | libfdt/fdt_overlay.c:718-808 | given room, succeeds exactly when each symbol is spelled as symbols are and is about a fragment with a target |
| `MergeSteps.AddSymbolRefused` | libfdt/fdt_overlay.c:723-777 | which error each other symbol gets |
| `MergeSteps.AddSymbolsFrame` | libfdt/fdt_overlay.c:718-808 | every other property of every node is unchanged |
| `MergeSteps.UpdateFrame` | libfdt/fdt_overlay.c:688-811 | the same of the whole update, which makes the node for symbols in front of the others when there is none, and does nothing for an overlay without symbols |
| `Symbols.SetTarget` | libfdt/fdt_overlay.c:785-791 | finding the target again after the room was made gives the same path |
| `Symbols.SymbolLeads` | libfdt/fdt_overlay.c:793-807 | in a tree with an unshadowed target, the path written leads where any relative path leads from the target |
| `NamePaths.FollowClear` | libfdt/fdt_ro.c:183-226 | a path leads to a node exactly when its components answer to the names on the way and none is shadowed |
| `SymbolPaths.FragsKept` | libfdt/fdt_overlay.c:612-642 | where each node is after all fragments: under the same names, with things merged into it or as it was |
| `SymbolPaths.FragLands` | libfdt/fdt_overlay.c:612-642 | where each node of a fragment is after all fragments: it is merged below the place of the target and carried along by the later fragments |
| `SymbolPaths.UpdateKeeps` | libfdt/fdt_overlay.c:688-811 | adding symbols moves only the children of the root, by one, and only when there was no node for symbols |
| `SymbolPaths.SymbolStored` | libfdt/fdt_overlay.c:688-811 | after all symbols are set the last one of each name has the value made for it |
| `SymbolPaths.SymbolFinds` | libfdt/fdt_overlay.c:644-811 | for a symbol of the overlay, given by its bytes: in the tree that is left it has the path written for it, and that path leads to the computed place where the overlay node was merged exactly when no component is shadowed there |
| `FoundPaths.SymbolUnmistaken` | libfdt/fdt_overlay.c:644-811 | none is, if no overlay node answers to a component without being called so and a target named by phandle is not shadowed when it is merged into |
| `FdtOverlay.OverlayApply` | libfdt/fdt_overlay.c:813-861 | renumber by the largest phandle of the base, resolve, merge and add symbols; the exact return value, a lack of room included; on success the overlay in its buffer is the prepared one, and the base is it applied; the magic of the overlay is erased, and on failure that of the base |
| `FdtOverlay.LargestOnce` | libfdt/fdt_ro.c:91-115 | there is one largest phandle |
| `FdtOverlay.PreparedOnce` | libfdt/fdt_overlay.c:813-845 | so the overlay that is merged is determined by the two trees |
| `PreparedOverlays.ExternalResolved` | libfdt/fdt_overlay.c:813-835 | in the overlay that is merged, the cell that a fixup names and no later fixup overlaps holds the phandle of the base node that the label leads to, and that phandle is not 0 |
| `PreparedOverlays.ApplyResolves` | libfdt/fdt_overlay.c:813-861 | the same of the buffers after `fdt_overlay_apply` |
| `PreparedOverlays.ListsExist` | libfdt/fdt_overlay.c:503-529 | every overlay that can be applied lists its fixups that way |
| `PreparedOverlays.PhandlesAreNew` | libfdt/fdt_overlay.c:813-835 | in the overlay that is merged, each phandle is moved up by the largest of the base, and no node of the base has it |
| `PreparedOverlays.FirstKept` | libfdt/fdt_overlay.c:813-835 | a node that its phandle leads to is led to by the renumbered one |
| `PreparedOverlays.LocalKept` | libfdt/fdt_overlay.c:813-835 | in the overlay that is merged, each offset listed by the bytes of the local fixups holds a cell that leads to the node it led to |
| `PreparedOverlays.PreparedElsewhere` | libfdt/fdt_overlay.c:813-835 | every byte that no fixup of either kind names, and that is in no phandle property, is as it was |
| `PreparedOverlays.PreparedExact` | libfdt/fdt_overlay.c:813-835 | exactly which overlays get through these three stages |
| `PreparedOverlays.AppliedExact` | libfdt/fdt_overlay.c:813-845 | and which can be applied, given room |
| `FdtOverlay.EnoughRoom` | libfdt/fdt_overlay.c:612-642 | with room for all that the fragments bring, an overlay without symbols fails only for a missing target |
| `FdtOverlay.ApplyAndFind` | libfdt/fdt_overlay.c:644-861 | the two calls: after an overlay is applied, fdt_path_offset on the path of a symbol gives the node at the computed place exactly when no component is shadowed there, and always under the condition on names |

## Left out

- `fdt_set_name` (libfdt/fdt_rw.c:249-270): a splice of one token, like the property edits.
- `fdt_move` (libfdt/fdt.c:242-251) alone: its copy is inside `FdtOpen.MoveInto`.
- FdtRoPath.PathOffset: not for aliases: a path that does not start with a slash looks itself up under `/aliases` without a bound (libfdt/fdt_ro.c:192-204).
- Searches by property value and by compatible string (libfdt/fdt_ro.c:498-523, 667-703), `fdt_get_mem_rsv`: loops and reads already covered.
- `libfdt/fdt_addresses.c`, `libfdt/fdt_strerror.c`, `libfdt/fdt_empty_tree.c`: single lookups or a fixed series of calls.
- `libfdt/atags_to_fdt.c`, serial drivers, boards, printing and the kernel jump: memory-mapped I/O, fixed tables, or not built.
- Corrupt blobs beyond the checks of `fdt_next_tag`: apart from those checks, blobs are assumed to hold a tree, and an offset that passes `fdt_check_node_offset_` is assumed to be a node (`View.Handle`).
- Names handed over by a caller are values without a NUL; memory behind such a pointer is not modelled.
- Tokens behind FDT_END in a version 17 structure block: editing asks that there are none.
- FdtRwNodes.AddSubnodeNamelen: not for the parent offset -1, which the code takes for its own not-found value.
- FdtOpen.OpenInto: source and destination are the same buffer or disjoint; overlap of different buffers is not modelled.
- FdtRoPath.GetPath: names of nodes have no slash in them; with one, dropping a name stops inside it.
- FdtOverlaySymbols.AddOneSymbol: no symbol is called `phandle` or `linux,phandle`, since that would give the node of symbols a phandle; the base has names that can stand in a path.
- FdtOverlaySymbols.OverlaySymbolUpdate: as AddOneSymbol, for each symbol.
- FdtOverlaySymbols.PrintTarget: the target's path is printed into a scratch buffer; the code prints it into the property of the blob it is walking.
- FdtOverlayPhandles.UpdateProperty: a reference cell outside its property is not read before it is refused; fixup offsets above 2^32 - 5 are excluded, because the room check would wrap.
- FdtOverlayPhandles.UpdateLocalNodeReferences: as UpdateProperty; fixups that lead to the fixups themselves are excluded, because the loop would rewrite what it reads.
- FdtOverlayPhandles.UpdateLocalReferences: as UpdateLocalNodeReferences.
- FdtOverlayFixups.FixupOnePhandle: paths that lead to the fixups themselves are excluded, and offsets above 2^32 - 5.
- FdtOverlayFixups.FixupPhandle: as FixupOnePhandle, for each string of a label.
- FdtOverlayFixups.FixupPhandles: as FixupPhandle; symbols of the base are terminated absolute paths.
- FdtOverlayMerge.GetTarget: not for a target path that is an alias, or not terminated (the code then reads behind the value).
- FdtOverlayMerge.OverlayMerge: as GetTarget, for each fragment.
- FdtOverlayFixups.Strtoul: `strtoul` is not in the repository; it is a decimal number of digits that saturates, without spaces or signs.
- FdtOverlay.OverlayApply: the overlay is asked to be of version 17 with ordered blocks, where the code checks only its header; overlays whose fixups lead to the fixups themselves are excluded, and target paths, symbols and fixup paths are terminated and absolute; base nodes have names that can stand in a path.
- PreparedOverlays.ExternalResolved: not for fixups about a phandle property, nor for overlays whose fixup nodes have phandle properties or local fixups of their own (`Renumbered.Tidy`): these would be changed while they are used.
- PreparedOverlays.LocalKept: as ExternalResolved; cells that are listed twice, or that fixups overlap, are changed twice.
- FdtWip.SetpropInplacePartial: a sum that wraps to within the value is excluded; the code then writes outside the value.
- FdtSw.FindAddString: a name that is not in the table and would make the sum with the table exceed the whole buffer is excluded; the room check would wrap.
- FdtSw.PropertyPlaceholder: as FdtSw.FindAddString.
- FdtSw.Property: as FdtSw.FindAddString.
- FdtSwRun.Run: as FdtSw.FindAddString, for each name at the call that first needs it.
- SymbolPaths.SymbolFinds: for a symbol that a later one of the same name does not replace, in a fragment whose phandle still leads to where it was merged; otherwise the code writes another path.
- Lengths are `nat` below 2^31 where the code takes an `int`; negative lengths are not modelled.
