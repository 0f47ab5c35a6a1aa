# Verified models of mfbt and of the SpiderMonkey build scripts

This project models the data structures of `mfbt` and the scripts in `config` whose correctness depends on more
than one function, and proves what they promise. Everything is stated for all inputs and, where an object has state,
over all runs. `dafny verify dfyconfig.toml` checks it.

**The hash table** (`mfbt/HashTable.h`). A class over an array of slots, each with a cached hash whose low bit is the
collision bit, and two counts. One invariant serves lookup, insertion, removal, tombstone recycling, growing,
shrinking, rehashing in place, rekeying and iteration: every slot passed on the way to a live entry carries the
collision bit, tombstones included. From it and from the number theory of odd steps modulo a power of two follows
that the table is a mathematical map in every run, that probing ends, that a table with storage is at most 3/4 full,
and that failures leave the map alone. What the allocator, its simulated failures and the hash policy answer is a
parameter of each call. Files, bottom up: `Modular`, `DoubleHashing`, `TableSizing`, `HashSlots`, `MarkedHashes`,
`Probing`, `InPlaceRehash`, `Rebuilding`, `HashTable`, `HashIterators`, `HashSessions`, `HashRuns`, `HashExamples`.

**The include graph** (`config/check_spidermonkey_style.py`). Tarjan's algorithm as the recursive, state-changing
procedure it is (`Graphs`, `TarjanState`, `Tarjan`); the drawing of cycles, what it looks like and how far it is
determined (`CycleDrawings`, `CyclePictures`, `CycleDrawer`, `CycleReports`); the reader of preprocessor blocks, whose
open blocks are shared between its stack and their parents (`CppBlocks`, `CppReader`), against the trees its input
stands for (`CppTrees`), with its regular expressions (`CppLines`) and the text they match (`CppGrammar`,
`CppDirectives`); the rearrangement of #include lines (`CppSorter`, `CppSorterLaws`, `ComparisonSorts`), with its sort
keys (`CppKeys`), the names they come from (`CppNames`) and the order that results (`CppOrder`); and all of it together
on files, where --fixup is idempotent (`CppShapes`, `CppFixup`, `CppFiles`).

**The JSON writer** (`mfbt/JSONWriter.h`). The incremental printer with its flags per depth and its two-pass escaper
(`JsonText`, `JsonWriter`), used to write arbitrary documents (`JsonDocuments`), whose layout is described character by
character (`JsonLayout`). A parser for section 2 of RFC 4627 (`JsonParser`) reads every output back (`JsonRoundTrip`).

**The buffer list** (`mfbt/BufferList.h`). Segments over shared heap buffers (`Segments`, `SegmentLayout`), the
iterator that crosses them (`BufferIterator`), writing, reading, borrowing, moving and copying (`BufferList`), and
`Extract` (`BufferExtract`), all against one flat byte sequence; calls at which the documentation is wrong
(`BufferExamples`).

**The intrusive list** (`mfbt/LinkedList.h`). Rings of heap nodes through a sentinel (`LinkedElements`,
`LinkedList`) and any number of lists sharing elements over any run (`LinkedListRuns`).

**The string hash** (`mfbt/HashFunctions.h`; `Bits`, `StringHash`), **zip compaction** (`config/MozZipFile.py`;
`ZipCompaction`) and **checked integers** (`mfbt/CheckedInt.h`; `CheckedInt`).

## Where the code and its documentation part

- When `relookupOrAdd` recycles a tombstone, it sets the collision bit in the caller's AddPtr. Used again through that
  pointer, it does not find the key and adds it a second time (`HashExamples.AddedTwice`), and in tables of more than
  2^16 slots it can put an absent key where no search for it comes by (`HashExamples.LostEntry`). Debug builds assert
  that the bit is clear; release builds go on. `HashTables.HashTable.RelookupOrAdd` says exactly when the table stays
  valid. The runs of `HashRuns` use a pointer again whenever its bit is clear or, below 2^16 slots, the key is absent.
- `read_file` followed by `to_source` is not always the identity: an #include line at the end of a file without a
  final newline gains one. `CppReader.RoundTripIff` says that this is the only exception, `CppFiles.ReadAndWriteSource`
  says it with the regular expressions of the source, and `CppFiles.RoundTripFails` is such a file.
- With equal sort keys in a batch it tries to sort, `CppBlock.sorted` compares two `Include` objects, which Python 3
  answers with TypeError. `CppSorter.SortBlock` says exactly when, `CppSorterLaws.EverySortAgrees` that this does not
  depend on how `sorted` works, and `CppKeys.CollidingNames` gives a block of three headers.
- The layout described at mfbt/BufferList.h:59-64 does not survive `MoveFallible` unless the size is a multiple of 8:
  the new list's last segment has no spare capacity, so the next write starts a segment at an offset that need not be
  divisible by 8. `BufferExamples.MoveThenWrite` states both directions, `BufferExamples.FourBytesMoved` is a case.
- `AllocateBytes(0)` appends an empty segment exactly if no room is left, and unless the list had no segment, an
  iterator that reaches it fails a release assertion: in `AdvanceAcrossSegments` and `ReadBytes` exactly if all that is
  left is asked for (`BufferIterators.Iter.AdvanceAcrossSegments`, `BufferLists.BufferList.ReadBytes`).
  `BufferExamples.ZeroBytesOnFullList` makes such a list, `BufferExamples.ReadFullList` reads it.
- `CopyFrom` makes a buffer of the recorded size and copies all segments. Extracting from within a segment takes the
  bytes off the recorded size and leaves them in the segment, so that a copy then writes beyond the buffer
  (`BufferExamples.CopyAfterExtract`). `BufferLists.BufferList.CopyFrom` says exactly when.
- `Extract` leaves the list intact when it fails, as documented, but not always the iterator: when the last
  allocation fails, it has moved past its segment. And with all memory granted it crashes on a partial last segment
  larger than the standard capacity. `BufferExtraction.Extract` says exactly when;
  `BufferExamples.ExtractMovesIterator` and `BufferExamples.ExtractCrashes` are cases.
- The comment in `find_cycles` that sorting makes its output deterministic holds for each drawing
  (`CycleReports.DrawingDetermined`) and not always for the order of several: `sorted(SCCs)` compares lists whose inner
  order comes from iterating over sets. `CycleReports.UniqueReportIff` gives the exact condition, and
  `CycleReports.TwoRuns` two runs on one graph.
- `bestCapacity` has a debug assertion that its argument is at most 2^29. `compact` passes the number of entries, which
  may be larger (`HashExamples.ManyEntries`); `TableSizing.BestCapacityFits` proves the arithmetic for all the entries a
  table can hold, 3 * 2^28 of them.

## Model

| member | source | states |
|---|---|---|
| `DoubleHashing.PrepareHash` | mfbt/HashTable.h:1616-1624 | a cached hash is never the free or the removed marker and leaves the collision bit clear |
| `DoubleHashing.PreparedIs` | mfbt/HashTable.h:1616-1624 | the cached hash number is the product of the code with the golden ratio in 32 bits, its low bit cleared; where the product is 0 or 1 it is 0xFFFFFFFE |
| `DoubleHashing.ProbePath` | mfbt/HashTable.h:1696-1713 | the i-th slot probed, in plain arithmetic: the top bits of the hash number less i times the next ones, made odd, modulo the capacity |
| `DoubleHashing.AppliedStep` | mfbt/HashTable.h:1703-1713 | subtracting the step in 32-bit wrap-around and masking is subtraction modulo the capacity |
| `DoubleHashing.ProbeReaches` | mfbt/HashTable.h:1696-1713 | for every slot there is a probe number below the capacity that visits it: probing ends |
| `DoubleHashing.ProbeInjective` | mfbt/HashTable.h:1696-1713 | no slot is visited twice in the first `capacity` probes: they are a permutation of the slots |
| `DoubleHashing.CeilingLog2` | mfbt/MathAlgorithms.h:307-314 | the exponent of the least power of two not below the argument |
| `TableSizing.BestCapacityFits` | mfbt/HashTable.h:1579-1601 | the chosen capacity is a legal power of two at which the wanted entries stay within 3/4, in 32-bit arithmetic |
| `TableSizing.BestCapacityLeast` | mfbt/HashTable.h:1579-1601 | no smaller legal capacity would do |
| `TableSizing.OverloadArithmetic` | mfbt/HashTable.h:1857-1878 | what the integer overload test and the choice between doubling and same-size rehash mean for the 3/4 bound |
| `HashSlots.LookupMiss` | mfbt/HashTable.h:1729-1776 | a free slot met before the key on its probe path proves the key absent, thanks to the collision bits |
| `HashSlots.FilledKeeps` | mfbt/HashTable.h:1958-1975 | filling a reachable non-live slot, keeping the collision bit of a recycled tombstone, keeps the probe chains |
| `HashSlots.FilledIff` | mfbt/HashTable.h:1958-1975 | filling a slot that is not live, whatever the key: the array is well formed afterwards exactly if the key was absent and its probe path leads to the slot |
| `HashSlots.VacatedKeeps` | mfbt/HashTable.h:1886-1899 | a slot without the collision bit may become free, one with it a tombstone, without losing any other entry |
| `HashSlots.LiveCountIsMapSize` | mfbt/HashTable.h:2041 | the number of live slots is the size of the map |
| `Probing.LookupForNonAdd` | mfbt/HashTable.h:1729-1776 | changes nothing; ends at a live slot holding the key if the map has it, else at a free slot |
| `Probing.LookupForAdd` | mfbt/HashTable.h:1729-1776 | marks the path; ends at the key, or at the first slot on its path that is not live: the first tombstone if there is one, else the free slot that ends the path; with the collision bit set in the hash number it never finds the key |
| `Probing.FindNonLiveSlot` | mfbt/HashTable.h:1781-1809 | needs one non-live slot only; the result is the first on the path, reachable for the hash, and only collision bits were set |
| `Probing.Search` | mfbt/HashTable.h:1751-1775 | the probing loop ends at the first slot that is free or matches |
| `MarkedHashes.SamePath` | mfbt/HashTable.h:1696-1713 | up to 2^16 slots, a hash number with the collision bit set is probed in the same order as without |
| `MarkedHashes.OffPath` | mfbt/HashTable.h:1696-1713 | beyond that, its second slot is none of the first three of the other order |
| `Rebuilding.SetLive` | mfbt/HashTable.h:1843-1847 | setting a slot live adds exactly that binding, one live slot, and takes a tombstone away if there was one |
| `Rebuilding.MoveEntries` | mfbt/HashTable.h:1838-1849 | the new storage holds the same map, without tombstones; the old slots are cleared |
| `InPlaceRehash.PlaceKeeps` | mfbt/HashTable.h:1934-1943 | one swap keeps the entries, never moves a placed one, and leaves fewer unplaced |
| `InPlaceRehash.FindUnplaced` | mfbt/HashTable.h:1931-1942 | the inner probing ends at a slot not yet placed, reached over placed slots |
| `InPlaceRehash.PlaceEntry` | mfbt/HashTable.h:1921-1943 | one round of the loop, with a strictly smaller set of unplaced entries |
| `InPlaceRehash.RehashInPlace` | mfbt/HashTable.h:1918-1944 | ends, keeps every entry, drops every tombstone and restores the probe chains |
| `HashTables.HashTable.constructor` | mfbt/HashTable.h:1671-1684 | an empty map without storage, remembering the capacity for the expected length |
| `HashTables.HashTable.Counts` | mfbt/HashTable.h:2039-2045 | the entry count is the size of the map; under the load bound some slot is free |
| `HashTables.HashTable.Lookup` | mfbt/HashTable.h:2065-2068 | the pointer found denotes the key exactly if the map has it |
| `HashTables.HashTable.Get` | mfbt/HashTable.h:2057-2068 | the value of the key in the map, if any |
| `HashTables.HashTable.LookupForAddPtr` | mfbt/HashTable.h:2070-2086 | as Lookup, plus a slot to insert at; the map is unchanged |
| `HashTables.HashTable.ChangeTableSize` | mfbt/HashTable.h:1813-1855 | succeeds exactly if the capacity is legal and storage is granted; the map never changes, on failure nothing does |
| `HashTables.HashTable.RehashIfOverloaded` | mfbt/HashTable.h:1857-1878 | afterwards one more entry fits under the 3/4 bound, or storage was refused or the map is over 2^29 entries; new storage has the old capacity exactly if a quarter of the slots were tombstones, else twice that |
| `HashTables.HashTable.InfallibleRehashIfOverloaded` | mfbt/HashTable.h:1880-1884 | restores the 3/4 bound whatever the allocator says |
| `HashTables.HashTable.RehashTableInPlace` | mfbt/HashTable.h:1918-1951 | the map is kept in the same storage, no tombstone is left, the generation moves on |
| `HashTables.HashTable.ShrinkIfUnderloaded` | mfbt/HashTable.h:1901-1911 | halves the capacity exactly if it is above the minimum, at most a quarter is in use and storage is granted; otherwise nothing changes, and the map never does |
| `HashTables.HashTable.PutNewInfallibleInternal` | mfbt/HashTable.h:1958-1975 | adds an absent key as long as some slot is not live |
| `HashTables.HashTable.PutNewInfallible` | mfbt/HashTable.h:2149-2156 | adds an absent key; keeps the load bound if there was room under it |
| `HashTables.HashTable.PutNew` | mfbt/HashTable.h:2158-2173 | adds an absent key or, on failure, leaves the map; fails only if a call out fails or the map is over 2^29 entries |
| `HashTables.HashTable.Add` | mfbt/HashTable.h:2088-2147 | completes an insertion after a miss: lazily allocating, recycling a tombstone, which sets the collision bit in the pointer, or checking the load; failing changes neither map nor pointer; through a pointer with that bit set the table stays valid exactly if the key is absent and its own probe path leads to the slot |
| `HashTables.HashTable.RelookupOrAdd` | mfbt/HashTable.h:2177-2202 | finds the key or adds it, after mutations in between and through a pointer that earlier calls may have changed; the collision bit is set in the pointer exactly if it was or a tombstone is recycled; with it set a present key is not found but added again, and an absent one keeps the table valid exactly if its own probe path leads to the slot; below 2^16 slots the table stays valid exactly if the bit is clear or the key absent |
| `HashTables.HashTable.RemoveSlot` | mfbt/HashTable.h:1886-1899 | removes one binding; the slot becomes free or a tombstone as its collision bit says |
| `HashTables.HashTable.Remove` | mfbt/HashTable.h:2204-2211 | removes one binding and may shrink |
| `HashTables.HashTable.Clear` | mfbt/HashTable.h:1978-1985 | the empty map |
| `HashTables.HashTable.Compact` | mfbt/HashTable.h:1987-2007 | keeps the map; frees an empty table, and with memory granted has the best capacity for the map |
| `HashTables.HashTable.ClearAndCompact` | mfbt/HashTable.h:2009-2012 | the empty map without storage |
| `HashTables.HashTable.Reserve` | mfbt/HashTable.h:2014-2031 | exactly when it succeeds, and that the entries then fit as far as capacity goes |
| `HashTables.HashTable.RekeyWithoutRehash` | mfbt/HashTable.h:2213-2222 | moves one binding to an absent key, possibly taking the last free slot |
| `HashTables.HashTable.RekeyAndMaybeRehash` | mfbt/HashTable.h:2224-2227 | the same, with the load bound restored |
| `HashTables.HashTable.Put` | mfbt/HashTable.h:250-258 | binds the key, or fails with the map unchanged; overwriting an existing key never needs memory |
| `HashTables.HashTable.RemoveKey` | mfbt/HashTable.h:343-347 | the map without the key |
| `HashTables.HashTable.RekeyAs` | mfbt/HashTable.h:370-377 | moves the binding of the old key, if any, to an absent new one |
| `HashIterators.ModIterator.constructor` | mfbt/HashTable.h:1338-1351 | starts before the first live entry |
| `HashIterators.ModIterator.Next` | mfbt/HashTable.h:1378-1386 | goes to the next live entry, skipping none |
| `HashIterators.ModIterator.Remove` | mfbt/HashTable.h:1421-1425 | removes the current binding within a session |
| `HashIterators.ModIterator.Rekey` | mfbt/HashTable.h:1438-1450 | moves the current binding to an absent key within a session, even when no free slot is left |
| `HashIterators.ModIterator.Finish` | mfbt/HashTable.h:1455-1464 | the destructor restores the 3/4 bound, also when memory is refused, and keeps the map; after removals it compacts, and without removals or rekeyings it touches nothing |
| `HashIterators.EntriesOfTable` | mfbt/HashTable.h:1328-1392 | the live slots in order list each binding of the map once |
| `HashIterators.ListEntries` | mfbt/HashTable.h:1328-1392 | a whole iteration yields exactly the bindings, each once |
| `HashIterators.RetainIf` | mfbt/HashTable.h:1394-1464 | a removing session over all entries leaves exactly those that pass the test |
| `HashSessions.Session` | mfbt/HashTable.h:1394-1464 | whatever a client keeps, removes or rekeys on the way, the map is the fold of its edits, each entry there was at first is visited, and the load bound holds at the end even if memory is refused |
| `HashRuns.RelookupKept` | mfbt/HashTable.h:2177-2202 | the pointer kept from a lookup or from the last such call, with what they made of it, finds or adds its key if it may be used again; the caller looks the key up anew otherwise |
| `HashRuns.Step` | mfbt/HashTable.h:211-377 | each public operation has its effect on a mathematical map, and failing only where it may; a pointer used for insertion is kept as the call leaves it |
| `HashRuns.Run` | mfbt/HashTable.h:211-377 | over every run of operations the table is that map, load bound and probe chains included; its count is the map size; pointers are used again as long as they may be |
| `HashRuns.RunGrows` | mfbt/HashTable.h:211-377 | runs compose: one more step on an explained run is an explained run |
| `HashRuns.Fill` | mfbt/HashTable.h:213-215 | reserving first makes putNewInfallible safe for all entries, on an empty map whose table has no tombstones |
| `HashExamples.AddedTwice` | mfbt/HashTable.h:2177-2202 | relookupOrAdd twice through one pointer after a tombstone was recycled: three entries for two keys |
| `HashExamples.LostEntry` | mfbt/HashTable.h:2177-2202 | in a table of 2^17 slots, relookupOrAdd through such a pointer for a key that is gone puts it where no search for it comes by |
| `HashExamples.ManyEntries` | mfbt/HashTable.h:1987-2007 | a map of one entry more than bestCapacity asserts its argument to be at most, reached by reserving and inserting |
| `Tarjan.Tarjan.StrongConnect` | config/check_spidermonkey_style.py:748-772 | one visit keeps the invariant and finds only what its vertex reaches; the vertex ends up black with the right low link, or its component is emitted, starting with it |
| `Tarjan.Tarjan.Successor` | config/check_spidermonkey_style.py:755-763 | one successor, visited or not, keeps the scan invariant |
| `Tarjan.Tarjan.Conclude` | config/check_spidermonkey_style.py:765-772 | popping at a root emits exactly a strongly connected component |
| `TarjanState.TopIsScc` | config/check_spidermonkey_style.py:765-770 | from a root upwards, the stack is one strongly connected component |
| `TarjanState.PopKeeps` | config/check_spidermonkey_style.py:765-770 | popping a component keeps the invariant |
| `TarjanState.PushKeeps` | config/check_spidermonkey_style.py:748-753 | pushing a new vertex keeps the invariant |
| `Tarjan.FindSccs` | config/check_spidermonkey_style.py:741-778 | for edges closed over the vertices, in whatever order these come, the result is the strongly connected components in order; each vertex that no vertex before it in that order reaches starts the list of its component; it ends |
| `Tarjan.Partition` | config/check_spidermonkey_style.py:741-778 | every vertex is in exactly one list |
| `Tarjan.SameListIffMutual` | config/check_spidermonkey_style.py:741-778 | two vertices share a list exactly if each reaches the other |
| `Tarjan.EmittedAfterReached` | config/check_spidermonkey_style.py:741-778 | a component comes after every component it reaches |
| `CycleDrawings.DrawCounts` | config/check_spidermonkey_style.py:717-724 | drawing prints one line, and one per edge from a newly drawn header into the component |
| `CycleDrawings.LineShows` | config/check_spidermonkey_style.py:718 | the characters of a line: three blanks for each step, then three more, or an arrow below the first line, and the name, which ends it |
| `CycleDrawings.DrawPrints` | config/check_spidermonkey_style.py:717-724 | every newly drawn header ends some line, with nothing but blanks and an arrow before it |
| `CycleDrawings.SccDrawing` | config/check_spidermonkey_style.py:713-726 | the drawing of a component has a line that ends in each member, and one line plus one per edge inside it |
| `CyclePictures.DrawOutline` | config/check_spidermonkey_style.py:717-724 | what is drawn from any header is an outline: below a header that is first named stand, one step deeper and in order, exactly its successors in the component, and below one named before nothing |
| `CyclePictures.SccPicture` | config/check_spidermonkey_style.py:713-726 | the drawing of a component is such an outline of all its members, starting from the one that precedes all others |
| `CycleDrawer.Drawer.Draw` | config/check_spidermonkey_style.py:717-724 | the recursive drawing ends on any component and prints what the drawing function says |
| `CycleDrawer.DrawComponent` | config/check_spidermonkey_style.py:713-726 | one component drawn from its alphabetically first header, and an empty line |
| `CycleDrawer.FindCycles` | config/check_spidermonkey_style.py:706-736 | for headers that come in any order, reports the strongly connected components as found in that order, and reports at all exactly if some directed cycle passes through two different headers; then the output is the heading and, for each component of more than one header in the order of their lists, its picture and an empty line |
| `CycleDrawer.ReportsIffCyclic` | config/check_spidermonkey_style.py:728-736 | an error is reported exactly if some directed cycle passes through two different headers |
| `CycleDrawer.ReportLaidOut` | config/check_spidermonkey_style.py:706-736 | a report that is not empty looks like that, and any two headers on one cycle are in one of its pictures |
| `CycleReports.DrawingDetermined` | config/check_spidermonkey_style.py:711-726 | one drawing does not depend on the order in which the component is listed |
| `CycleReports.SameReportIff` | config/check_spidermonkey_style.py:728-736 | reports on two listings of the components are equal exactly if their drawings start from the same headers in the same order |
| `CycleReports.UniqueReportIff` | config/check_spidermonkey_style.py:711-736 | all orders in which the headers may be visited give the same output exactly if, of any two cyclic components, all members of one sort before all members of the other |
| `CycleReports.OrderDecides` | config/check_spidermonkey_style.py:774-776 | otherwise there are two orders such that every output for one differs from every output for the other |
| `CycleReports.TwoRuns` | config/check_spidermonkey_style.py:706-736 | one graph, two runs that differ in the header visited first, two different outputs |
| `Sorting.SortKeeps` | config/check_spidermonkey_style.py:721 | sorted() orders and permutes |
| `Sorting.SortOfSorted` | config/check_spidermonkey_style.py:500 | sorting is stable: a list in order stays as it is |
| `Sorting.SortSet` | config/check_spidermonkey_style.py:721 | sorting a set lists each member once, in order |
| `Sorting.StringLessIs` | config/check_spidermonkey_style.py:721 | strings are ordered by the first character at which they differ, a proper prefix first |
| `Sorting.ListLessIs` | config/check_spidermonkey_style.py:729 | lists of strings likewise, by the first string at which they differ |
| `CppSorter.FlushBatch` | config/check_spidermonkey_style.py:511-534 | fails with TypeError exactly if sorting is attempted on includes with equal keys; otherwise the sorted includes, then what followed the last one |
| `CppSorter.SortPairsIff` | config/check_spidermonkey_style.py:481-488 | sorting (key, Include) pairs by insertion, where comparing a tie fails, succeeds exactly if no two keys are equal, and then sorts by key |
| `ComparisonSorts.FailsExactlyOnTies` | config/check_spidermonkey_style.py:488 | every sort that decides by comparisons compares some tied pair if there is one |
| `CppSorterLaws.EverySortAgrees` | config/check_spidermonkey_style.py:488 | so every such sort fails on the same includes as sorting by insertion, and otherwise gives the same result |
| `CppSorter.PrettySorted` | config/check_spidermonkey_style.py:479-493 | includes whose keys are in order as they are; others sorted with a blank line between sections, or TypeError |
| `CppKeys.CollidingNames` | config/check_spidermonkey_style.py:394-440 | with the sort keys of the source, a block including c.h, a.h and A.h cannot be sorted |
| `CppNames.WithoutIff` | config/check_spidermonkey_style.py:358 | replace takes a part out where it first occurs, then where it first occurs in what follows, until it does not |
| `CppNames.OwnHeaderIff` | config/check_spidermonkey_style.py:355-376 | a header belongs to the file if the module names are equal, or if the file's ends in the stem of a public header: what stands between js/ and the last .h |
| `CppNames.RankIff` | config/check_spidermonkey_style.py:394-431 | the section of an include, by how its name begins and ends, whether it is a system header and whether it belongs to the file |
| `CppNames.EarlierIff` | config/check_spidermonkey_style.py:394-440 | one include sorts before another exactly if its rank is lower, or the rank is the same and its name in small letters comes first |
| `CppOrder.TouchesIff` | config/check_spidermonkey_style.py:495-502 | a batch is sorted exactly if an include stands behind one it sorts before, the file is no counterexample, and no name is one of the eight exceptions |
| `CppOrder.RunIsSorted` | config/check_spidermonkey_style.py:511-534 | what becomes of a batch that is sorted: the same includes, each before all it sorts before, one blank line between two exactly if their ranks differ, and at the end the blank lines that followed the last include |
| `CppOrder.SnippetIsSorted` | config/check_spidermonkey_style.py:473-554 | what becomes of a tree: each run of includes and blank lines that, code in place, and blocks the same inside |
| `CppOrder.HasClashIff` | config/check_spidermonkey_style.py:481-488 | a tree cannot be sorted exactly if somewhere in it a run that is to be sorted has two includes of the same rank with names that differ in case at most |
| `CppSorter.SortBlock` | config/check_spidermonkey_style.py:473-554 | succeeds exactly if no attempted batch at any depth has equal keys, and then gives the sorted block |
| `CppSorterLaws.FlushLaws` | config/check_spidermonkey_style.py:511-534 | a batch is permuted, ends up in key order if sorting was tried, and is otherwise untouched |
| `CppSorterLaws.FlushedStrictly` | config/check_spidermonkey_style.py:486-493 | with distinct keys the order of an attempted batch is strict |
| `CppSorterLaws.RunsAndBreakers` | config/check_spidermonkey_style.py:536-549 | every block is its maximal runs of includes and blanks with the breakers between them |
| `CppSorterLaws.SortsRunByRun` | config/check_spidermonkey_style.py:473-554 | code and nested blocks stay in place and order; each run is flushed on its own, nested blocks recursively |
| `CppSorterLaws.SnippetIdempotent` | config/check_spidermonkey_style.py:473-554 | sorting twice is sorting once, and the second time cannot fail |
| `CppFixup.KidsComplete` | config/check_spidermonkey_style.py:473-554 | sorting a tree of that shape gives a tree of that shape |
| `CppFixup.SortedRefits` | config/check_spidermonkey_style.py:473-554 | sorting keeps the lines those of a file: none is empty, and all but the last end in newlines |
| `CppFixup.FixupTwice` | config/check_spidermonkey_style.py:328-334 | for any classification of lines that is regular: reading, sorting and writing a file that has been read, sorted and written gives the same text |
| `CppFiles.FixupIdempotent` | config/check_spidermonkey_style.py:328-334 | the same with the regular expressions and sort keys of the source: --fixup on what --fixup wrote changes nothing, and cannot fail |
| `CppFiles.Fixup` | config/check_spidermonkey_style.py:328-334 | what --fixup writes for a file: the source text of its tree with the includes in order; cannot read it exactly if its directives do not nest, with the first line that needs an #if or the missing #endif as the reason, and cannot sort it exactly if two includes clash |
| `CppFiles.FixupTwiceOver` | config/check_spidermonkey_style.py:328-334 | running it twice writes what running it once does |
| `CppReader.ReadLine` | config/check_spidermonkey_style.py:583-630 | one line takes the open blocks to what the line makes of them: the kid it adds, the block it opens or ends, or the line number it fails on |
| `CppReader.FrameSame` | config/check_spidermonkey_style.py:583-633 | what an open block stands for does not depend on the blocks inside the one it has open, although its list of kids holds that one |
| `CppReader.CloseTop` | config/check_spidermonkey_style.py:616-628 | a block that ends is a finished kid of the block around it, with all it holds |
| `CppReader.AppendOrdinaryLine` | config/check_spidermonkey_style.py:464-467 | an ordinary line extends the last run of code of the innermost block or starts one |
| `CppReader.Push` | config/check_spidermonkey_style.py:606-610 | opening a block inside the innermost one leaves the others as they were |
| `CppReader.Pop` | config/check_spidermonkey_style.py:616-628 | closing the innermost block makes it the last kid of the one below |
| `CppReader.ReadFile` | config/check_spidermonkey_style.py:579-635 | succeeds exactly if the lines form a tree; the block objects then stand for that tree, line numbers included; fails at the first #else or #endif outside all blocks, or at the end if a block is open |
| `CppTrees.TreeIffBalanced` | config/check_spidermonkey_style.py:579-635 | the lines form a tree exactly if every #else and #endif has its #if and every #if its #endif |
| `CppTrees.TreeLines` | config/check_spidermonkey_style.py:579-635 | the lines of the tree are the lines of the file in their order, each #include line ended with a newline |
| `CppTrees.TreeText` | config/check_spidermonkey_style.py:556-570 | writing the tree out writes that text |
| `CppShapes.TreeOk` | config/check_spidermonkey_style.py:579-635 | in a tree that was read, code never follows code, an #else block follows just a block that the #else ended, and each line is what its snippet says |
| `CppShapes.RereadFile` | config/check_spidermonkey_style.py:579-635 | reading the lines such a tree is written as gives the tree again, line numbers apart |
| `CppBlocks.BlockToSource` | config/check_spidermonkey_style.py:556-570 | writes out the tree the block objects stand for |
| `CppLines.ClassifyFaithful` | config/check_spidermonkey_style.py:583-600 | what the regular expressions match of an #include line is all of it but a final newline |
| `CppReader.RoundTripIff` | config/check_spidermonkey_style.py:442-443 | the text written equals the text read exactly if every #include line ends in a newline |
| `CppReader.ReadAndWrite` | config/check_spidermonkey_style.py:556-635 | read_file then to_source is the identity on a balanced file exactly if its #include lines end in newlines |
| `CppDirectives.DirectiveLines` | config/check_spidermonkey_style.py:602-628 | a line opens, turns or ends a block exactly if it is white space, #, white space, and a whole word that is one of if, ifdef and ifndef, of elif and else, or endif |
| `CppDirectives.IncludeLines` | config/check_spidermonkey_style.py:583-600 | a line is an #include with given parts exactly if it is them: white space, #, white space, include, white space, a name in quotes without a quote or in angle brackets without a closing one, and what follows on the line |
| `CppDirectives.BalancedIsNested` | config/check_spidermonkey_style.py:579-635 | blocks are balanced exactly if the directives, as text, nest |
| `CppFiles.ReadAndWriteSource` | config/check_spidermonkey_style.py:556-635 | the same in terms of the text: succeeds exactly if the directives of the lines nest, gives the file back exactly if its #include lines end in newlines, and otherwise names the line that needs an #if |
| `CppFiles.RoundTripFails` | config/check_spidermonkey_style.py:442-443 | a file of one #include line of any form without a newline is written back one character longer |
| `JsonWriter.EscapedString.constructor` | mfbt/JSONWriter.h:163-220 | the escaped string and its precomputed length; a buffer is made exactly if something is escaped |
| `JsonWriter.FillEscaped` | mfbt/JSONWriter.h:196-220 | the second pass writes exactly the escaped bytes and a final NUL |
| `JsonWriter.PutEscaped` | mfbt/JSONWriter.h:205-217 | two-character and six-character escapes of one byte |
| `JsonWriter.JSONWriter.Separator` | mfbt/JSONWriter.h:258-268 | before an item of a multi-line collection a newline and as many blanks as it is deep, with a comma in front unless it is the first; in single-line style a comma and a blank between items |
| `JsonWriter.JSONWriter.NewVectorEntries` | mfbt/JSONWriter.h:303-310 | both flag vectors have depth + 1 entries, earlier ones kept |
| `JsonWriter.JSONWriter.StartCollection` | mfbt/JSONWriter.h:312-324 | opens a collection, whose style is multi-line only if its parent is |
| `JsonWriter.JSONWriter.EndCollection` | mfbt/JSONWriter.h:327-337 | closes one level; in multi-line style the bracket follows a newline and as many blanks as its collection is deep |
| `JsonWriter.JSONWriter.StringProperty` | mfbt/JSONWriter.h:406-410 | writes one escaped string item |
| `JsonWriter.JSONWriter.IntProperty` | mfbt/JSONWriter.h:379-386 | writes one integer item |
| `JsonDocuments.WriteValue` | mfbt/JSONWriter.h:356-446 | writing any tree of values adds its text at the current depth, laid out character by character |
| `JsonLayout.EscapeCharIs` | mfbt/JSONWriter.cpp:16-43 | the escape of each byte, in characters |
| `JsonLayout.TextLaidOut` | mfbt/JSONWriter.h:258-337 | the layout of any value at any depth, in characters: every item of a multi-line collection on a line of its own, indented by its depth, commas between items, and the closing bracket on its own line |
| `JsonLayout.OneLine` | mfbt/JSONWriter.h:233-237 | inside a single-line collection no line ends, whatever styles are asked for in it |
| `JsonDocuments.WriteDocument` | mfbt/JSONWriter.h:356-362 | a whole document from Start to End is the document text, laid out like that, and a newline |
| `JsonRoundTrip.EscapedStringParses` | mfbt/JSONWriter.h:163-220 | an escaped string reads back as the string, by section 2.5 of RFC 4627 |
| `JsonRoundTrip.ValueParses` | mfbt/JSONWriter.h:258-337 | the text of any value at any depth, in any style, parses to the value by section 2 of RFC 4627 |
| `JsonRoundTrip.DocumentRoundTrip` | mfbt/JSONWriter.h:258-337 | the output for any document parses to exactly that document |
| `JsonRoundTrip.PrintingIsInjective` | mfbt/JSONWriter.h:258-337 | documents with the same output are the same up to layout |
| `SegmentLayout.SegmentOffsetAligned` | mfbt/BufferList.h:59-64 | in a packed list every segment starts at an offset divisible by 8 |
| `SegmentLayout.ByteAligned` | mfbt/BufferList.h:59-64 | the byte at any offset lies in its buffer at an index congruent to the offset modulo 8 |
| `BufferLists.BufferList.constructor` | mfbt/BufferList.h:73-91 | a packed list, with the initial segment if one was asked for and granted |
| `BufferLists.BufferList.Init` | mfbt/BufferList.h:121-127 | one segment, or nothing changed |
| `BufferLists.BufferList.AllocateBytes` | mfbt/BufferList.h:423-450 | grants the rest of the last segment or a new one; earlier content is a prefix of the new, and packed stays packed; when a request for no bytes leaves an empty segment that iterators cannot enter |
| `BufferLists.BufferList.WriteBytes` | mfbt/BufferList.h:403-421 | appends the bytes; fails exactly if an allocation it needs is refused, and then a proper prefix of them stays; packed stays packed and Size() the sum |
| `BufferLists.BufferList.WriteBytesZeroCopy` | mfbt/BufferList.h:362-373 | appends the given buffer as a segment, or changes nothing |
| `BufferLists.BufferList.ReadBytes` | mfbt/BufferList.h:452-472 | succeeds exactly if n bytes remain; copies them or all there are and advances past what it copied; crashes exactly if it asks for all that remains of a list that ends with an empty segment, from a segment before it |
| `BufferLists.BufferList.Borrow` | mfbt/BufferList.h:474-497 | a list of the next n bytes over the same buffers; what is left ahead follows them |
| `BufferLists.BufferList.MoveFallible` | mfbt/BufferList.h:499-524 | hands the content over or changes nothing; a packed list stays packed exactly if its size is a multiple of 8 |
| `BufferExamples.MoveThenWrite` | mfbt/BufferList.h:59-64 | after a move and a write, the bytes are at places congruent to their offsets modulo 8 exactly if the size moved was a multiple of 8 |
| `BufferExamples.FourBytesMoved` | mfbt/BufferList.h:59-64 | four bytes written, moved, and four more: a list in which they are not |
| `BufferLists.BufferList.CopyFrom` | mfbt/BufferList.h:129-149 | one packed segment of the recorded size of the other list, with its content if that is the size; the copies stay inside the new buffer exactly if what the segments hold fits into that size rounded up to 8 |
| `BufferExamples.CopyAfterExtract` | mfbt/BufferList.h:129-149 | after extracting 8 of 16 bytes, a copy writes 16 bytes into a buffer of 8 |
| `BufferIterators.Iter.HasBytesAvailable` | mfbt/BufferList.h:216-229 | true exactly if that many bytes remain, the argument cut to 32 bits |
| `BufferIterators.Iter.Advance` | mfbt/BufferList.h:235-251 | moves past n bytes of the segment, and over to the next when it ends; of the release assertions only the one after the crossing can fail, and does exactly if the next segment is empty |
| `BufferExamples.ZeroBytesOnFullList` | mfbt/BufferList.h:423-450 | a call that leaves a list at which it fails |
| `BufferExamples.ReadFullList` | mfbt/BufferList.h:452-472 | reading all 8 bytes of that list crashes |
| `BufferIterators.Iter.AdvanceAcrossSegments` | mfbt/BufferList.h:256-267 | succeeds exactly if n bytes remain; moves past them or to the end; crashes exactly if it asks for all that remains of a list that ends with an empty segment, from a segment before it |
| `BufferIterators.AskedTwice` | mfbt/BufferList.h:452-472 | asking for a and then b bytes gives what asking for a + b does |
| `BufferExtraction.CountSegments` | mfbt/BufferList.h:545-571 | the walk over a copy of the iterator decides whether enough bytes remain and how they spread |
| `BufferExtraction.StealSegments` | mfbt/BufferList.h:602-622 | hands over a stretch of segments and fixes up the iterator index, the release assertion holding |
| `BufferExtraction.Transfer` | mfbt/BufferList.h:573-630 | copying the ends and handing over the middle: the result and what is ahead together are what was ahead; exactly when it crashes, when it fails and where the iterator then is |
| `BufferExtraction.Extract` | mfbt/BufferList.h:526-638 | on success the result is the n bytes at the iterator, the iterator goes on with exactly what followed and no buffer has two owners; on failure the list is unchanged; exactly when it crashes, when it fails, and whether the failing call has moved the iterator |
| `BufferExamples.ExtractCrashes` | mfbt/BufferList.h:586-595 | with everything granted, a partial last segment larger than the standard capacity |
| `BufferExamples.ExtractWithoutCapacity` | mfbt/BufferList.h:578-580 | a list without a standard capacity, from which nothing can be extracted |
| `BufferExamples.ExtractMovesIterator` | mfbt/BufferList.h:345-346 | a failing call that leaves the list alone and the iterator 16 bytes further on |
| `LinkedElements.InsertKeepsRing` | mfbt/LinkedList.h:314-341 | the four pointer writes of an insertion turn a ring into the ring with the new element |
| `LinkedElements.RemoveKeepsRing` | mfbt/LinkedList.h:240-249 | joining the neighbours takes an element out of a ring |
| `LinkedElements.ReplaceKeepsRing` | mfbt/LinkedList.h:346-380 | the pointer writes of a move put one element in the place of another |
| `LinkedElements.Element.SetNextUnsafe` | mfbt/LinkedList.h:314-324 | inserts behind an element of a ring; the list takes one reference |
| `LinkedElements.Element.SetPreviousUnsafe` | mfbt/LinkedList.h:330-340 | inserts before an element of a ring; the list takes one reference |
| `LinkedElements.Element.Remove` | mfbt/LinkedList.h:240-249 | leaves a ring and is in no list; the reference is given back |
| `LinkedElements.Element.AdjustLinkForMove` | mfbt/LinkedList.h:346-380 | takes the place of the moved-from element, references moving along except for sentinels |
| `LinkedLists.LinkedList.InsertFront` | mfbt/LinkedList.h:446-449 | puts the element first |
| `LinkedLists.LinkedList.InsertBack` | mfbt/LinkedList.h:454 | puts the element last |
| `LinkedLists.LinkedList.InsertAfter` | mfbt/LinkedList.h:221-224 | inserts right behind a member |
| `LinkedLists.LinkedList.InsertBefore` | mfbt/LinkedList.h:231-234 | inserts right before a member |
| `LinkedLists.LinkedList.RemoveMember` | mfbt/LinkedList.h:240-249 | takes out just that member |
| `LinkedLists.LinkedList.PopFirst` | mfbt/LinkedList.h:472-478 | the first member, or null from an empty list |
| `LinkedLists.LinkedList.PopLast` | mfbt/LinkedList.h:484-490 | the last member, or null from an empty list |
| `LinkedLists.LinkedList.RemoveAndGetNext` | mfbt/LinkedList.h:257-261 | removes and returns the member that followed, or null |
| `LinkedLists.LinkedList.Clear` | mfbt/LinkedList.h:510-513 | empties the list and leaves every former member in no list |
| `LinkedLists.LinkedList.Length` | mfbt/LinkedList.h:518-526 | the number of members |
| `LinkedLists.LinkedList.Contains` | mfbt/LinkedList.h:500-502 | membership |
| `LinkedLists.LinkedList.IsEmpty` | mfbt/LinkedList.h:495 | true exactly without members |
| `LinkedLists.LinkedList.MoveMember` | mfbt/LinkedList.h:184-195 | the new element takes the place of the old one |
| `LinkedLists.LinkedList.MoveFrom` | mfbt/LinkedList.h:427-434 | the empty list takes over all members of the other, which is left empty |
| `LinkedListRuns.ReferencesBalance` | mfbt/LinkedList.h:346-380 | lists hold exactly one reference on each member and none on any other element |
| `LinkedListRuns.WorldKept` | mfbt/LinkedList.h:184-249 | an operation that keeps to its own nodes leaves all lists disjoint rings |
| `LinkedListRuns.Step` | mfbt/LinkedList.h:446-513 | each operation is the matching sequence edit of one list, all other lists unchanged |
| `LinkedListRuns.Run` | mfbt/LinkedList.h:446-513 | over every run on any number of lists they stay disjoint rings that spell what the edits say |
| `StringHash.RotateLeft5` | mfbt/HashFunctions.h:106-109 | the two shifts share no bits: the rotation as arithmetic |
| `StringHash.RotatedBits` | mfbt/HashFunctions.h:106-109 | each bit of the rotated number is the one five places below, counted round |
| `StringHash.AddMixes` | mfbt/HashFunctions.h:111-155 | the bits in which the rotated hash and the value differ form a number, and that times the golden ratio in 32 bits is the new hash |
| `StringHash.AddInjective` | mfbt/HashFunctions.h:111-155 | equal results from equal hashes mean equal values, and the other way round |
| `StringHash.SuffixCarries` | mfbt/HashFunctions.h:262-270 | a common suffix never brings two different hashes together, nor parts equal ones |
| `StringHash.OneUnitApart` | mfbt/HashFunctions.h:262-270 | strings of equal length that differ in one unit have different hashes |
| `StringHash.HashStringKnownLength` | mfbt/HashFunctions.h:262-270 | starting from 0 and mixing in one unit after the other gives the hash of the string |
| `StringHash.HashStringUntilZero` | mfbt/HashFunctions.h:250-257 | the hash of the units before the first zero |
| `StringHash.HashTerminated` | mfbt/HashFunctions.h:250-257 | on a terminated string without zeros in it, the same as with known length |
| `ZipCompaction.KeptBytesBehind` | config/MozZipFile.py:115-132 | entries only move down: what was written never reaches the next entry to be read |
| `ZipCompaction.MoveEntry` | config/MozZipFile.py:122-132 | one entry read, rewritten further down and its offset adjusted |
| `ZipCompaction.RangeMoved` | config/MozZipFile.py:115-138 | the old bytes of each kept entry are found at its new offset |
| `ZipCompaction.SortArranges` | config/MozZipFile.py:110-116 | sorting lists each entry once, the ranges following each other within the file |
| `ZipCompaction.KeptIsCompacted` | config/MozZipFile.py:115-138 | in terms of offsets and bytes: what a kept entry reaches up to the start of the next one is found at its new offset, in the old order without overlaps, and the file holds nothing else |
| `ZipCompaction.ZipFile.Close` | config/MozZipFile.py:89-136 | with a kept entry the file becomes the kept ranges in order and each offset its new start, byte for byte; with none it is cut at its position |
| `CheckedInts.IsInRangeExact` | mfbt/CheckedInt.h:226-270 | whichever comparisons the two types select, they decide whether the value fits |
| `CheckedInts.IsAddValidExact` | mfbt/CheckedInt.h:272-291 | the wrap-around and sign-bit test holds exactly if the sum fits |
| `CheckedInts.IsSubValidExact` | mfbt/CheckedInt.h:293-312 | the same for differences |
| `CheckedInts.IsMulValidExact` | mfbt/CheckedInt.h:314-359 | the double-width test, and at 64 bits the test by division, hold exactly if the product fits |
| `CheckedInts.IsDivValidExact` | mfbt/CheckedInt.h:361-367 | a quotient is defined and fits exactly if the divisor is not zero and it is not min / -1 |
| `CheckedInts.ResultUnique` | mfbt/CheckedInt.h:677-717 | what a sum, difference, product, quotient or remainder is, by the remainder it leaves, determines it: a quotient is rounded towards zero |
| `CheckedInts.CombineExact` | mfbt/CheckedInt.h:677-717 | one operator is valid exactly if both sides are and the result, so determined, is defined and fits; then that is the value, and else 0 |
| `CheckedInts.ExactBinary` | mfbt/CheckedInt.h:677-717 | the exact value of an expression is the result of its operator on the exact values of both sides, if those exist and it is defined and fits |
| `CheckedInts.CheckedIsExact` | mfbt/CheckedInt.h:504-717 | a whole expression is valid exactly if every leaf fits and every subexpression is defined and in range, and is then exact |
| `CheckedInts.CheckedInt.constructor` | mfbt/CheckedInt.h:533-539 | valid exactly if the plain integer, of whatever type, fits; the value is congruent to it modulo 2 to the width in any case |
| `CheckedInts.CheckedInt.OpAssign` | mfbt/CheckedInt.h:757-772 | valid afterwards exactly if both sides were and the result is defined and fits; the value is that result, quotients rounded towards zero, or 0 where it is undefined or does not fit |
| `CheckedInts.CheckedInt.PostIncrement` | mfbt/CheckedInt.h:640-645 | returns the old value; valid afterwards exactly below the maximum |
| `CheckedInts.CheckedInt.PostDecrement` | mfbt/CheckedInt.h:653-658 | returns the old value; valid afterwards exactly above the minimum |

## Left out

- Hash table: memory layout, placement new, destructors of entries, reentrancy guards, mutation counters, moving and swapping whole tables, and the concrete hash policies; keys match when they are equal, and the hash is any function of the key.
- Hash table: `HashSet`, whose operations are those of the map without values; `rekeyIfMoved`; `all()`; memory reporting.
- HashTables.HashTable.RekeyAs: the new key must be absent, as the assertions behind `putNewInfallibleInternal` assume; rekeying onto another present key is outside the model.
- HashTables.HashTable.Reserve: says nothing about tombstones already in the table, because the code compares capacities only; `HashRuns.Fill` needs a table without them.
- Include graph: directory walking, file kinds, the pairwise order checks, error texts, difflib, and the edges to `.tbl` and `.msg` files.
- CppLines.ClassifyFaithful: white space and word characters are modelled for the ASCII range.
- CppNames.EarlierIff: `lower` is modelled for the ASCII range, and names contain no newline, which `.` in a regular expression would stop at.
- CppBlocks: runs of ordinary code are values inside their block rather than objects of their own.
- CppSorter.SortBlock: works on trees rather than on block objects, of which `CppBlocks.BlockToTree` makes a copy first; `isspace` is modelled for the ASCII range.
- CppFiles.Fixup: a file is the sequence of its lines; encodings, and line ends other than a newline, which opening a file in text mode translates, are not modelled.
- CycleDrawer.FindCycles: the order in which the set of headers is iterated over is a parameter; successors are visited in an arbitrary order.
- JSON writer: doubles, which an external library formats; sprintf for integers and pointers is replaced by decimal notation; bytes above 0x7f pass through without a check that they are UTF-8; running out of memory in `NewVectorEntries`, which crashes.
- Buffer list: `RangeLength`, memory reporting, move construction and assignment of whole lists, the capacity of the segment vector, and freeing buffers.
- BufferExtraction.Extract: mSize is kept as an unbounded integer; after `Extract` it is not the sum of the segment sizes, because copied bytes stay in the list in front of the iterator, and repeated extraction takes it below zero where the original wraps around.
- BufferExtraction.Extract: the alignment of the iterator and of the size, which only debug assertions ask for, is not needed and not required.
- BufferLists.BufferList.CopyFrom: the other list must have a positive recorded size, as an assertion in `Init` asks for; what copying beyond the buffer does to other memory is not modelled.
- Linked lists: destruction of elements when the last reference goes, `AutoCleanLinkedList`, the debug checks, and memory reporting; `IsEmpty` of a list under destruction.
- LinkedLists.LinkedList.RemoveMember: which list an element is in is a ghost argument; the pointers alone do the work.
- String hash: pointers, enums and 64-bit integers in `AddToHash`, `HashBytes`, and the seeded `HashCodeScrambler`.
- ZipCompaction.ZipFile.Close: ends before the base class writes the central directory; `writestr`, the `file_offset` attribute of old Python versions and locking are not modelled.
- Checked integers: the compiler builtins that replace the tests where they exist; `toChecked`; comparison.
