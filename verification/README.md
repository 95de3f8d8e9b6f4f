# gingerOs: a verified model of its memory manager, indexes and fast library routines

This project models the parts of the gingerOs kernel that are hardest to get right and proves what they
are for. `dafny verify dfyconfig.toml` checks the whole project.

**Address spaces** (`kernel/mm/mmap.c`; `Regions`, `AddressSpace`, `Unmapping`, `Holes`, `Mapping`,
`AddressRuns`, `Translations`). A doubly linked list of memory regions is a class with `prev`/`next` pointers. Its invariant
says that the list is linked both ways, sorted, disjoint, within the limit and counted by `refs`. Every
operation is proved to be a pointwise update of the map from addresses to flags that the list stands for:
unmapping through its trim, split and remove cases, `MAP_FIXED`, hinted and unhinted hole search, growth,
protection. `AddressRuns.Run` states this for whole runs, with every error. `uintptr_t` and `size_t` arithmetic wraps
at 2^64. `Translations` puts regions and page tables together: which translations an unmapping takes away, and when
every page that is present still lies in a region.

**Page tables and copy-on-write** (`kernel/arch/x86_64/paging.c`, `kernel/arch/pagefault.c`; `PageTree`,
`Subtree`, `LazyCopy`, `Paging`, `Ledger`, `Spaces`, `Teardown`, `Fork`, `CopyOnWrite`, `MapRange`, `Sharing`). All
address spaces are four-level trees over one pool of counted frames. The invariant ties every table row to the tree, every
frame count to the references held on it, and every writable entry to a frame that nobody else uses.
`Sharing.Run` proves that over every run of creations, forks, reads, writes, unmaps, teardowns and exits the
address spaces see exactly what they would see if fork copied every page at once, that every page frame is
counted by the entries that name it, and when exactly each request is refused. Removing regions unmaps their pages in
whichever tables are loaded, which is part of the effect. Whether a table can be mounted, a region cloned or a page
copied, which tables are loaded and which pages the regions hold are parameters of the request.

**Search tree** (`kernel/ds/btree.c`; `SearchTree`, `Btree`). Deletion re-inserts whole subtrees from the root,
and flushing deletes nodes while the tree moves under it. Both are proved on the linked nodes.

**Strings** (`kernel/lib/string.c`; `CMemory`, `WordScan`, `CriticalFactorization`, `MaximalSuffix`, `Strstr`,
`Memmove`). `strstr` returns the first occurrence for every haystack and needle; the proof contains the
critical factorization theorem for the pair of maximal suffixes that the two-way search computes. The
word-at-a-time scans equal byte scans, and `memmove` is right for every overlap.

**Formatted output** (`kernel/lib/printf.c`; `Printf`, `Format`, `Numerals`). `vsnprintf` is proved against its whole
output: the capacity only decides how much of it is kept. Integers read back, by an independent reader, as the numbers
they were printed from, exactly when nothing of them is dropped.

**Prefix codes** (`kernel/include/font/ssfn.h`, `usr/include/nanojpeg.c`; `BitStream`, `CanonicalCode`, `Inflate`,
`JpegHuffman`). The tables built from code lengths and the two-stage decoder are proved against the canonical
code of section 3.2.2 of RFC 1951, the JPEG lookup table against section C.2 and the DECODE procedure of section
F.2.2.3 of ITU-T T.81.

**Page cache and pipe** (`kernel/fs/icache.c`, `kernel/ds/ringbuf.c`, `kernel/fs/pipefs/pipefs.c`; `PageCache`,
`Pipe`). Reads through the cache see the last byte written, else the stored one. Under every interleaving of
readers and writers, at every moment, the bytes accepted by a pipe are the bytes delivered followed by the ring's
contents, and calls and logs only move forward.

## Where a property fails

Each of these is modelled as the code has it, with the exact condition under which the property holds.

- The search for a hole from the end tests `start - 1 > 0`, so it does not see address 0 below a region that
  starts at 1. It fails although there is room exactly when one address is asked for, address 1 is mapped and no
  other address is free (`Holes.FindHole`, `Holes.AddressZeroIsMissed`).
- `mmap_map_region` with `MAP_FIXED` accepts a length for which `addr + len - 1` wraps around and then links a
  region that ends before it starts. The list stays valid exactly when the call fails or the range does not wrap
  (`Mapping.MapRegion`, `AddressSpace.MMap.MapIn`, `Mapping.WrappedRequestPasses`).
- `mmap_protect` with a length that wraps around changes the whole region that holds `addr` instead of the range
  asked for (`Mapping.Protect`, `Mapping.WrappedRangeCovered`).
- `mmap_mapin` counts a region that ends before it starts without linking it exactly when the only other region
  starts before it and reaches to its start (`AddressSpace.MMap.MapIn`, `AddressSpace.CountedNotLinked`).
- `mmap_unmap` calls `vmr_split` with a null out-pointer, through which `vmr_split` stores before it tests it
  (`kernel/mm/mmap.c:444`, `:1251`). It does so exactly when the range begins strictly inside a region
  (`Unmapping.Unmap`). The model goes on as if the store were skipped, as the test at `:1272` would have it.
- `mmap_unmap` takes translations away only with regions that are removed whole. In lists of whole pages, a page that is
  present stays so without a region exactly when it lies in the range and its region reaches beyond the range
  (`Translations.UnmapBoth`, `Translations.StrayMeans`, `Translations.FirstPageStays`).
- A fork that fails after its address space was made frees that space, and `mmap_remove` then unmaps the cloned regions in
  the tables that are loaded, which are the parent's. It changes no view exactly when none of their pages is mapped there
  (`Sharing.PerformFork`, `Sharing.RefusedForkMeans`, `Sharing.RefusedForkTakesPages`). In the same way `mmap_clean` and
  `mmap_free` of an address space leave the others alone exactly when no page of its regions is mapped in loaded tables
  other than its own (`Sharing.CleaningMeans`).
- A store to an absent page of a region that may be written but neither read nor executed is never done. `PTE_R` and
  `PTE_X` are `PTE_P`, so the entry is stored without the present bit; the fault is answered as handled, the frame is lost,
  and the store faults again until no frame is left. An absent page appears exactly when the region may be read or
  executed and there are frames (`CopyOnWrite.HandleWriteFault`, `CopyOnWrite.RetryStore`, `CopyOnWrite.WriteOnlyStore`).
- `mmap_protect` reports an error of the page tables after it has changed the regions: a call that fails leaves the
  list as it was exactly when it fails before `arch_mprotect` (`Mapping.Protect`).
- A failed `x86_64_map_n` is not undone. The pages mapped before the failure are unmapped, also those that were mapped
  before the call, and the tables made for them stay. Everything is as before exactly when as many pages at the start
  of the range as there are free frames are unmapped and need no new table, and the flags have the present bit or no
  frame is free (`MapRange.MapN`, `MapRange.UndoneMeans`).
  With four free frames and no tables yet, two pages leave three empty tables behind (`MapRange.TablesStay`).
- `x86_64_map_n` loses the frame it has just taken exactly when there was a frame for the page but not for the
  tables it needs, or when the page was mapped already, or when the flags have no present bit
  (`CopyOnWrite.MapAnonymous`, `CopyOnWrite.FrameIsLost`).
- With `#`, `_ntoa_format` takes characters away to make place for the prefix, which are digits of the number when it was
  not filled up with zeros; it may have room for the letter of the prefix and not for its 0, and none for a sign. An
  integer reads back exactly when none of this happens and it has at most 32 digits (`Numerals.IntReads`,
  `Numerals.PrefixTakesDigits`). A field filled with zeros is at most 32 wide (`Numerals.FieldWidth`).
- A format that ends within a conversion is scanned past its terminator (`Format.Vsnprintf`, `Format.LonePercent`).
- A traversal of the tree onto a queue of unique values lists all data in key order exactly when the data are
  distinct (`Btree.Tree.Traverse`).

## Model

| member | source | states |
|---|---|---|
| `Regions.MapsUnique` | kernel/mm/mmap.c:294-306 | in a sorted list an address has one set of flags, so the list stands for a function |
| `Regions.RemovedSorted` | kernel/mm/mmap.c:248-292 | taking a region out keeps the order |
| `Regions.RemovedMaps` | kernel/mm/mmap.c:248-292 | taking a region out unmaps exactly its addresses |
| `Regions.InsertedSorted` | kernel/mm/mmap.c:120-220 | a region put between its neighbours keeps the order |
| `Regions.InsertedMaps` | kernel/mm/mmap.c:120-220 | a region put in maps exactly its addresses, with its flags |
| `Regions.UpdatedSorted` | kernel/mm/mmap.c:408-459 | new bounds within the room the neighbours leave keep the order |
| `Regions.UpdatedMaps` | kernel/mm/mmap.c:408-459 | new bounds or flags change the map exactly on the old and the new addresses of the region |
| `Regions.HoleAround` | kernel/mm/mmap.c:383-406 | the hole at an unmapped address reaches to the next region or to the limit |
| `Regions.FreeIsBetween` | kernel/mm/mmap.c:120-220 | a free range lies between two neighbours of the list |
| `AddressSpace.MMap.constructor` | kernel/mm/mmap.c:100-106 | the empty list is valid |
| `AddressSpace.MMap.Contains` | kernel/mm/mmap.c:235-246 | true if and only if the node is in the list |
| `AddressSpace.MMap.Find` | kernel/mm/mmap.c:294-306 | the region that holds the address; null if and only if the address is unmapped |
| `AddressSpace.MMap.FindExact` | kernel/mm/mmap.c:308-320 | the region with exactly these bounds; null if and only if there is none |
| `AddressSpace.MMap.FindNext` | kernel/mm/mmap.c:322-343 | the region that holds the address and the first one that starts after it |
| `AddressSpace.MMap.FindPrev` | kernel/mm/mmap.c:345-367 | the region that holds the address and the last one that ends before it |
| `AddressSpace.MMap.HoleSize` | kernel/mm/mmap.c:383-406 | succeeds exactly on unmapped addresses up to the limit; the length is the largest for which the range is free |
| `AddressSpace.MMap.Splice` | kernel/mm/mmap.c:149-214 | the new node knows its neighbours and they know it; head and tail move exactly at the ends; every other link is untouched |
| `AddressSpace.MMap.Link` | kernel/mm/mmap.c:149-214 | the list is well linked with the node at its position |
| `AddressSpace.MMap.Overlaps` | kernel/mm/mmap.c:139-147 | stepping from hole to hole decides whether the range is free; the step is never 0, so the panic cannot happen |
| `AddressSpace.MMap.FindPlace` | kernel/mm/mmap.c:159-168 | the neighbours between which a region with this start belongs; a region that reaches to the start is passed over on the left |
| `AddressSpace.MMap.MapIn` | kernel/mm/mmap.c:120-220 | each error exactly under its condition, with nothing changed; otherwise the region is in its place and counted. A region turned around breaks the list: it is linked somewhere, or counted without being linked exactly if the only other region holds its start |
| `AddressSpace.CountedNotLinked` | kernel/mm/mmap.c:120-220 | an interval turned around inside the only region is counted, reported as mapped, and not in the list |
| `AddressSpace.MMap.Unsplice` | kernel/mm/mmap.c:257-283 | the neighbours of the node know each other; head and tail move exactly at the ends; every other link is untouched |
| `AddressSpace.MMap.Unlink` | kernel/mm/mmap.c:257-283 | the list is well linked without the node |
| `AddressSpace.MMap.Remove` | kernel/mm/mmap.c:248-292 | ENOENT exactly for a node that is not in the list; otherwise exactly that region is gone and refs follows |
| `AddressSpace.MMap.Update` | kernel/mm/mmap.c:408-459 | a region that gets new bounds within its room leaves the list valid, all others as they were |
| `AddressSpace.MMap.Probe` | kernel/mm/mmap.c:120-168 | the tests of mmap_mapin decide its error exactly; otherwise the neighbours that name the place of the region, or none |
| `AddressSpace.MMap.Place` | kernel/mm/mmap.c:149-219 | the region is in its place, if it has one, and counted; valid exactly if the region is not turned around |
| `Unmapping.SplitKeepsMap` | kernel/mm/mmap.c:1244-1275 | cutting a region in two changes no address |
| `Unmapping.OnePlace` | kernel/mm/mmap.c:120-220 | a region has one place in the list |
| `Unmapping.Split` | kernel/mm/mmap.c:1244-1275 | EINVAL exactly unless the address is strictly inside; otherwise the two halves with the same flags are neighbours |
| `Unmapping.ClearedThen` | kernel/mm/mmap.c:421-456 | clearing one part and then the next clears both and nothing else |
| `Unmapping.RemoveClears` | kernel/mm/mmap.c:423-438 | removing a whole region clears its range |
| `Unmapping.TrimClears` | kernel/mm/mmap.c:429-442 | trimming a region clears the part cut off |
| `Unmapping.SplitClears` | kernel/mm/mmap.c:443-444 | splitting clears nothing |
| `Unmapping.HoleClears` | kernel/mm/mmap.c:446-455 | stepping over a hole keeps the account of what is cleared |
| `Unmapping.RemoveAccount` | kernel/mm/mmap.c:423-438 | removing a region whole is one entry in the account of regions removed |
| `Unmapping.SplitAccount` | kernel/mm/mmap.c:443-444 | splitting keeps that account |
| `Unmapping.Step` | kernel/mm/mmap.c:421-456 | one turn of the loop clears up to the new start and lowers the measure (length, then inside / at a start / in a hole); it keeps account of the regions removed; it splits exactly if the start is strictly inside a region, and never again after that; it stops early only above the limit |
| `Unmapping.StepExact` | kernel/mm/mmap.c:423-427 | the same where one region is the whole range |
| `Unmapping.StepAtStart` | kernel/mm/mmap.c:429-438 | the same where a region begins at the start |
| `Unmapping.StepInRegion` | kernel/mm/mmap.c:440-445 | the same where a region begins before the start |
| `Unmapping.Unmap` | kernel/mm/mmap.c:408-459 | EINVAL exactly for an empty range or an invalid last address; otherwise every address of the range is unmapped, all others keep their flags, the list is valid, and the loop ends; exactly which regions mmap_remove took out; vmr_split was called exactly if the start is strictly inside a region |
| `Holes.GapFits` | kernel/mm/mmap.c:461-524 | a range within a gap is free and within the limit |
| `Holes.FitsInGap` | kernel/mm/mmap.c:461-524 | every free range within the limit lies in one gap |
| `Holes.HoleIsGap` | kernel/mm/mmap.c:383-406 | the hole size at the bottom of a gap is the size of the gap |
| `Holes.ScanUp` | kernel/mm/mmap.c:478-493 | the first gap above the region that is large enough, or none is |
| `Holes.ScanDown` | kernel/mm/mmap.c:502-519 | the last gap below the region that is large enough, or none is except address 0 below a region at 1 |
| `Holes.LowestGap` | kernel/mm/mmap.c:471-493 | the bottom of the first gap that is large enough is the lowest place there is |
| `Holes.HighestGap` | kernel/mm/mmap.c:495-519 | the top of the last gap that is large enough is the highest place there is |
| `Holes.AddressZeroIsMissed` | kernel/mm/mmap.c:512-518 | a list with room for one address at 0 that the search from the end reports as full |
| `Holes.FindHole` | kernel/mm/mmap.c:461-524 | the lowest (or highest) place; ENOMEM if and only if nothing fits, address 0 below a region at 1 not counting for the search from the end |
| `Holes.NearUp` | kernel/mm/mmap.c:535-578 | the hint itself if it fits, else the bottom of the first gap that fits from the one below the first region above the hint; fails exactly if none of these fits |
| `Holes.NearDown` | kernel/mm/mmap.c:579-630 | the top of the last gap that fits from the one above the last region below the hint downwards; fails exactly if none of these fits |
| `Holes.FindHoleAt` | kernel/mm/mmap.c:526-635 | which place is chosen: near the hint as for the two searches, else the lowest or highest of all; ENOMEM exactly as for the search without a hint |
| `Holes.SearchUp` | kernel/mm/mmap.c:554-577 | the first gap that fits, from the one below a region on |
| `Holes.SearchDown` | kernel/mm/mmap.c:591-630 | the last gap that fits, from the one above a region downwards |
| `Holes.ChosenUpIsLowest` | kernel/mm/mmap.c:526-578 | without a hint the place chosen upwards is the lowest of all |
| `Holes.ChosenDownIsHighest` | kernel/mm/mmap.c:579-635 | without a hint the place chosen downwards is the highest of all |
| `Holes.GapAbove` | kernel/mm/mmap.c:591-611 | the top of the gap above a region, exactly if the gap is large enough |
| `Mapping.ForcedMapIn` | kernel/mm/mmap.c:222-233 | the region's addresses get its flags, all others keep theirs; valid exactly if the region is not turned around |
| `Mapping.MapFree` | kernel/mm/mmap.c:686-719 | without MAP_FIXED the new region goes to the vacant place that the search near the hint chooses; the only other outcomes are EINVAL for length 0 and ENOMEM for no room |
| `Mapping.MapRegion` | kernel/mm/mmap.c:637-723 | which requests fail and how, ENOMEM exactly if nothing fits; where the region goes, with the place chosen as by the search; the new map as a pointwise override; valid exactly unless a fixed range wraps around |
| `Mapping.WholePages` | kernel/mm/mmap.c:661-719 | a stack never asks for a single address, so the search from the end overlooks nothing for it |
| `Mapping.WrappedRequestPasses` | kernel/mm/mmap.c:637-723 | a fixed request that wraps around and passes every test |
| `Mapping.WrappedRangeCovered` | kernel/mm/mmap.c:813-831 | a range that wraps around and passes for a part of a region that starts before it |
| `Mapping.Grow` | kernel/mm/mmap.c:766-798 | EINVAL, ENOMEM and success exactly under their conditions: where the room would begin at a taken or invalid address, where it is too small, and where the room above (or below, for a stack) is free; the region is extended by it |
| `Mapping.Extend` | kernel/mm/mmap.c:772-796 | a region gets bounds within the room its neighbours leave |
| `Mapping.Expand` | kernel/mm/mmap.c:745-811 | each error exactly under its condition; otherwise the region is resized at the right end, or removed when nothing is left |
| `Mapping.CutDown` | kernel/mm/mmap.c:853-910 | cutting a region down frees the rest and changes nothing else |
| `Mapping.Carve` | kernel/mm/mmap.c:853-910 | the three ways to split leave the range as a region of its own and change no address |
| `Mapping.CarveMiddle` | kernel/mm/mmap.c:880-909 | a range in the middle of a region becomes a region of its own and no address changes |
| `Mapping.FindOverlap` | kernel/mm/mmap.c:369-381 | null if and only if no region holds the start and reaches to the end |
| `Mapping.SetFlags` | kernel/mm/mmap.c:912-917 | exactly the region's addresses get the flags |
| `Mapping.Protect` | kernel/mm/mmap.c:813-929 | each error exactly under its condition, stacks and write-with-execute changes refused; otherwise exactly the range gets the protection, or the whole region if the range wraps around, also when changing the page tables then fails |
| `Mapping.Clean` | kernel/mm/mmap.c:931-964 | no region is left |
| `Mapping.Copy` | kernel/mm/mmap.c:985-1023 | the destination drops what it had and gets the same regions on nodes of its own, as many as there is memory for, and its arguments, environment and heap stand where those of the source do; ENOMEM exactly if a region cannot be cloned, otherwise the result of copying the page tables |
| `Mapping.CopyRegions` | kernel/mm/mmap.c:995-1013 | the regions are copied in order, up to the first that there is no memory for |
| `Mapping.FindTwin` | kernel/mm/mmap.c:1015-1017 | looking a region up by its start in the copy finds the region in the same place |
| `Mapping.Alloc` | kernel/mm/mmap.c:67-118 | each error exactly under its condition: the root table, the descriptor, the first region; otherwise a new address space maps exactly its first 16 MB, without rights |
| `Mapping.Shrink` | kernel/mm/mmap.c:861-893 | cutting a region down unmaps exactly what is cut off |
| `Mapping.PutPiece` | kernel/mm/mmap.c:864-908 | a piece at free addresses adds exactly its addresses and moves no other region's bounds |
| `Mapping.Emptied` | kernel/mm/mmap.c:222-233 | after the unmapping the region's addresses are free |
| `Mapping.CloneRegion` | kernel/mm/mmap.c:1005-1013 | a region of the source goes behind those copied before it; it is never refused |
| `AddressRuns.Perform` | kernel/mm/mmap.c:408-929 | which error each request gets; each is an update of the map from addresses to flags, or none; the list stays valid exactly unless a fixed mapping is granted whose range wraps around |
| `AddressRuns.PerformMap` | kernel/mm/mmap.c:637-723 | EINVAL and ENOMEM exactly under their conditions; otherwise the mapping is at its fixed place or at the vacant place that the search chooses; valid exactly unless a fixed range wraps around |
| `AddressRuns.PerformGrow` | kernel/mm/mmap.c:745-811 | ENOENT, EINVAL and ENOMEM exactly under their conditions; otherwise the region that holds the address is resized |
| `AddressRuns.Run` | kernel/mm/mmap.c:408-929 | over every run of mappings, removals, changes of protection and growth the list stays valid and stands for the map that the requests describe, with every error under its condition, up to the first granted fixed mapping whose range wraps around, if there is one |
| `Translations.StrippedMeans` | kernel/mm/mmap.c:289 | in a list of whole pages, exactly the pages of the range whose region ends within it are unmapped in the page tables |
| `Translations.UnmapBoth` | kernel/mm/mmap.c:289-459 | regions and page tables together: exactly which translations go; afterwards every page that is present lies in a region if and only if none lay in a region that reaches beyond the range |
| `Translations.StrayMeans` | kernel/mm/mmap.c:430-444 | that condition, for all lists of whole pages and all tables |
| `Translations.GoneIsStripped` | kernel/mm/mmap.c:289 | the ranges unmapped one after the other are the pages of the regions removed |
| `Translations.FirstPageStays` | kernel/mm/mmap.c:430-434 | a region of two pages loses the first, and its translation stays |
| `PageTree.GetKeeps` | kernel/mm/pmm/zone_page.c:26-103 | taking a free frame keeps the invariant and every view |
| `PageTree.PutKeeps` | kernel/mm/pmm/zone_page.c:178-208 | giving back a reference held outside the tables keeps the invariant and every view |
| `PageTree.IncrKeeps` | kernel/mm/pmm/zone_page.c:128-139 | one more reference on a frame that nobody can write keeps the invariant and every view |
| `PageTree.StoreInv` | kernel/arch/x86_64/paging.c:249-252 | writing a leaf entry moves one reference from outside into the table and keeps the invariant |
| `PageTree.UnlinkInv` | kernel/arch/x86_64/paging.c:143-199 | clearing the entry of an empty table gives up exactly that table |
| `PageTree.SoleUser` | kernel/arch/pagefault.c:123-138 | a frame with count 1 is named by one leaf entry at most |
| `PageTree.FillFrame` | kernel/arch/pagefault.c:27-52 | changing the content of a frame with count 1 changes one page of one address space |
| `Paging.Machine.GetPage` | kernel/mm/pmm/zone_page.c:26-103 | fails only when no frame is free; otherwise a frame with count 0 gets count 1 |
| `Paging.Machine.PutPage` | kernel/mm/pmm/zone_page.c:178-208 | one outside reference less |
| `Paging.Machine.IncrPage` | kernel/mm/pmm/zone_page.c:128-139 | one outside reference more |
| `Paging.Machine.EnsureTable` | kernel/arch/x86_64/paging.c:28-47 | the table is there, made from a free frame if it was missing; failure changes nothing |
| `Paging.Machine.DropTable` | kernel/arch/x86_64/paging.c:143-157 | exactly this empty table is gone and its frame is free |
| `Paging.Machine.MapPdt` | kernel/arch/x86_64/paging.c:49-86 | EINVAL and ENOTSUP exactly for bad indices and large pages; otherwise two levels of tables are there, exactly if there are frames for those missing; every failure leaves tree and counts as before |
| `Paging.Machine.WalkPdt` | kernel/arch/x86_64/paging.c:59-85 | two levels of tables are there, or everything is as before and there were too few frames |
| `Paging.Machine.UndoPdt` | kernel/arch/x86_64/paging.c:126-140 | undoing gives back exactly the tables that were made |
| `Paging.Machine.MapPt` | kernel/arch/x86_64/paging.c:88-141 | EINVAL and ENOTSUP exactly for bad indices and large pages; otherwise succeeds exactly if there are as many free frames as missing tables; every failure leaves tree and counts as before |
| `Paging.Machine.WalkPt` | kernel/arch/x86_64/paging.c:98-140 | three levels of tables are there, exactly if there are as many free frames as missing tables; each missing table took one frame |
| `Paging.Machine.Map` | kernel/arch/x86_64/paging.c:208-273 | EINVAL and ENOTSUP exactly for bad indices and large pages; otherwise the translation of exactly one page is set, when absent or to be remapped, exactly if there are frames for the missing tables; without the present bit the entry is stored and no page is there; on failure tree, counts and rows are as before |
| `Paging.Machine.SetEntry` | kernel/arch/x86_64/paging.c:222-273 | one leaf entry is set, when absent or to be remapped, exactly if there are frames for the missing tables; it is a page exactly if its present bit is set |
| `Paging.Machine.ClearLeaf` | kernel/arch/x86_64/paging.c:290-303 | the entry is cleared and its reference dropped |
| `Paging.Machine.Unmap` | kernel/arch/x86_64/paging.c:275-303 | exactly this page is unmapped; tables and outside references stay |
| `Paging.Machine.LinkTable` | kernel/arch/x86_64/paging.c:37-44 | the new table is in the tree, referenced once, and every other row is as it was |
| `Paging.Machine.UndoTable` | kernel/arch/x86_64/paging.c:126-140 | the table is gone exactly if it was made |
| `Paging.Machine.StoreLeaf` | kernel/arch/x86_64/paging.c:249-252 | exactly one leaf entry changes and one reference moves between outside and the table |
| `Spaces.NewSpace` | kernel/arch/x86_64/paging.c:670-688 | succeeds exactly if a frame is free and can be mounted; the new address space is empty; a failure changes nothing |
| `Spaces.FreeSpace` | kernel/arch/x86_64/paging.c:690-693 | the root of an empty address space is gone and its frame is free |
| `Spaces.AddRootInv` | kernel/arch/x86_64/paging.c:677-683 | a zeroed frame in hand becomes an empty root and the invariant holds |
| `Spaces.DropRootInv` | kernel/arch/x86_64/paging.c:690-693 | giving up an empty root keeps the invariant |
| `Ledger.CleanIsCounted` | kernel/mm/pmm/zone_page.c:26-208 | every page frame is counted by exactly the entries that name it if and only if none of them is held outside the tables |
| `Ledger.FreeAfterGrowth` | kernel/arch/x86_64/paging.c:37-44 | with the same pages the free pool has shrunk by the new tables and the frames held from outside, and by nothing else |
| `Teardown.ClearEntry` | kernel/arch/x86_64/paging.c:409-431 | what lies below one entry is gone, and nothing else |
| `Teardown.ClearBelow` | kernel/arch/x86_64/paging.c:409-431 | what lies below one table is gone, and nothing else |
| `Teardown.UnmapFull` | kernel/arch/x86_64/paging.c:409-431 | no lower-half page or table is left in the address space; all others keep theirs |
| `Teardown.OutsideIsChildless` | kernel/arch/x86_64/paging.c:417-429 | a table whose entries have all been cleared is empty |
| `Fork.CopyLeaf` | kernel/arch/x86_64/paging.c:546-565 | both entries are read-only, name the same frame, and its count has grown by the second; no frame is taken or freed |
| `Fork.ClearWriteBit` | kernel/arch/x86_64/paging.c:550-554 | the source entry is read-only and nothing else has changed |
| `Fork.NoneWritable` | kernel/arch/x86_64/paging.c:550-554 | once the entry is read-only no entry of its frame is writable |
| `Fork.CopyTable` | kernel/arch/x86_64/paging.c:488-540 | a table and all below it has its twin, exactly if there is a frame for each twin and each table can be mounted; else a part of it |
| `Fork.CopyBelow` | kernel/arch/x86_64/paging.c:464-584 | one level of the nested loops copies every entry of the table, exactly if there is a frame for each twin and each table below can be mounted |
| `Fork.LazyCpy` | kernel/arch/x86_64/paging.c:464-584 | succeeds exactly if every table of the source can be mounted and there is a frame for the twin of each; the child then has a read-only twin of every page; after a failure at any point every count and table is as before and the parent lost at most write bits |
| `LazyCopy.CannotPay` | kernel/arch/x86_64/paging.c:492-494 | a level that cannot be copied makes the whole copy impossible |
| `LazyCopy.EntryCost` | kernel/arch/x86_64/paging.c:488-570 | copying a table takes one frame more than copying all below it |
| `Fork.SameUses` | kernel/arch/x86_64/paging.c:579-584 | equal tables, pages and outside references mean equal counts |
| `Fork.ForkThenTeardown` | kernel/arch/x86_64/paging.c:409-584 | fork and teardown of the child restore every frame count, every table, and the parent up to write bits |
| `Fork.CopyEntry` | kernel/arch/x86_64/paging.c:488-565 | one entry, absent, leaf or table, has its twin, exactly if there are frames and mounts for it; else a part of it |
| `Fork.PartialUndone` | kernel/arch/x86_64/paging.c:579-583 | removing what is below the child's root undoes any part of a copy up to write bits |
| `CopyOnWrite.GetMapping` | kernel/arch/x86_64/paging.c:645-668 | finds the entry exactly of mapped addresses other than 0 |
| `CopyOnWrite.EnableWrite` | kernel/arch/pagefault.c:54-62 | the entry becomes writable, nothing else changes |
| `CopyOnWrite.CopyPage` | kernel/arch/pagefault.c:27-52 | succeeds exactly if a frame is free and the content can be copied; no view changes; on success the page is writable on a frame of its own, on failure the shared entry is back |
| `CopyOnWrite.HandleCowFault` | kernel/arch/pagefault.c:123-138 | handled exactly if the frame is used once, or a frame is free and the content can be copied; no view changes; on success the page is writable; the invalid-count error is unreachable |
| `CopyOnWrite.MapAnonymous` | kernel/arch/x86_64/paging.c:360-382 | succeeds exactly if there are frames for the page and its missing tables, each of which took one; an absent page appears exactly if it succeeds and the flags have the present bit; exactly when a frame is lost |
| `CopyOnWrite.TakeFrame` | kernel/arch/x86_64/paging.c:365-371 | succeeds exactly if a frame is free; the frame is in hand, zeroed if asked for, and no view has changed |
| `CopyOnWrite.HandleWriteFault` | kernel/arch/pagefault.c:201-214 | each outcome exactly under its condition; a handled fault leaves a writable page that shows what was there, or a new page exactly if the region may be read or executed; a frame is lost exactly when there is one for an absent page, but not for its tables, or the region has no such right |
| `CopyOnWrite.HandleReadFault` | kernel/arch/pagefault.c:216-232 | each outcome exactly under its condition; a handled fault maps a new page with the rights of the region |
| `CopyOnWrite.FaultIn` | kernel/arch/pagefault.c:20-25 | succeeds exactly if there are frames for the page and its tables; the page appears exactly if it succeeds and the region may be read or executed; page frames stay counted by their entries |
| `CopyOnWrite.Attempt` | kernel/arch/pagefault.c:201-214 | a store to an absent page of a region that may be written but neither read nor executed: answered as handled exactly if there are frames, with the page still absent and one frame lost |
| `CopyOnWrite.RetryStore` | kernel/arch/pagefault.c:194-214 | repeated until it is refused, such a store takes every free frame but those for the tables and leaves the page absent |
| `CopyOnWrite.BootInv` | kernel/arch/x86_64/paging.c:670-688 | an empty address space in a pool of n frames satisfies the invariant |
| `CopyOnWrite.FrameIsLost` | kernel/arch/x86_64/paging.c:370-381 | with one free frame and no tables yet, mapping any page fails and leaves the frame in use, named by nobody |
| `CopyOnWrite.WriteOnlyStore` | kernel/arch/pagefault.c:194-214 | n frames and no tables yet: three frames become tables, all others are lost, and there is no page |
| `CopyOnWrite.RestoreShared` | kernel/arch/pagefault.c:39-48 | after a failed copy the shared entry and all references are back |
| `CopyOnWrite.FillFromShared` | kernel/arch/pagefault.c:38-51 | the new frame shows what the shared one showed, whose reference is dropped |
| `CopyOnWrite.IsPresent` | kernel/arch/pagefault.c:146-150 | the present bit of the fault tells whether the page is mapped |
| `CopyOnWrite.Store` | kernel/arch/pagefault.c:54-62 | a store through a writable entry changes one byte of one page of one address space |
| `MapRange.UnmapN` | kernel/arch/x86_64/paging.c:305-308 | exactly the pages of the range are unmapped and leave the view |
| `MapRange.UnmapRanges` | kernel/arch/x86_64/paging.c:305-308 | exactly the pages of all ranges are unmapped |
| `MapRange.MapN` | kernel/arch/x86_64/paging.c:360-382 | succeeds exactly if there is a frame for every page and every missing table; absent pages appear if the flags have the present bit, present ones stay; exactly how many frames are lost; a failure unmaps the pages before it, keeps exactly the tables made for them, and shrinks the pool by these and the lost frames |
| `MapRange.MapNext` | kernel/arch/x86_64/paging.c:367-375 | one page of the range is tried: it succeeds exactly if there are frames for it and the tables still missing; what has appeared, grown and been lost so far |
| `MapRange.GiveUp` | kernel/arch/x86_64/paging.c:378-381 | what the error path takes away and what it leaves behind |
| `MapRange.NeededAreNew` | kernel/arch/x86_64/paging.c:367-375 | the tables made page by page are the tables of the range that did not exist |
| `MapRange.UndoneMeans` | kernel/arch/x86_64/paging.c:378-381 | a failure leaves tables, pages and counts as before if and only if as many pages at the start of the range as there are free frames are unmapped and need no new table, and their entries have the present bit or no frame is free |
| `MapRange.TablesStay` | kernel/arch/x86_64/paging.c:378-381 | two pages with four free frames: the call fails, no page is left, and three frames stay allocated as empty tables |
| `Sharing.ForkView` | kernel/arch/x86_64/paging.c:464-584 | after a lazy fork the views are those of an eager copy |
| `Sharing.ForkClean` | kernel/arch/x86_64/paging.c:556-564 | a fork names no frame that was not named before |
| `Sharing.TeardownView` | kernel/arch/x86_64/paging.c:409-431 | a teardown removes the pages of one address space from the view |
| `Sharing.CleanView` | kernel/mm/mmap.c:931-964 | cleaning an address space removes its own pages, and those of its regions in the loaded tables, from the view |
| `Sharing.PerformFork` | kernel/mm/mmap.c:1025-1050 | a fork is done exactly if its root, the twins of all tables, the clones of all regions and all mounts can be had; it is then the eager fork into a new address space; refused after that space was made, it unmaps the pages of the cloned regions in the loaded tables and changes nothing else |
| `Sharing.RefusedForkMeans` | kernel/mm/mmap.c:1038-1041 | a refused fork changes no view if and only if no address space was made for it, or no page of the cloned regions is mapped in the loaded tables |
| `Sharing.RefusedForkTakesPages` | kernel/mm/mmap.c:1025-1050 | a parent with one page and one free frame: the fork is refused and the page is gone |
| `Sharing.PerformCreate` | kernel/arch/x86_64/paging.c:670-688 | an address space is created exactly if a frame is free and can be mounted |
| `Sharing.PerformExit` | kernel/mm/mmap.c:966-983 | an address space that exits takes its pages and its root with it, and the pages of its regions in the loaded tables |
| `Sharing.PerformTeardown` | kernel/mm/mmap.c:931-964 | the same without the root |
| `Sharing.CleaningMeans` | kernel/mm/mmap.c:931-983 | cleaning or freeing an address space leaves all others as they were if and only if no page of its regions is mapped in loaded tables other than its own |
| `Sharing.PerformRead` | kernel/arch/pagefault.c:216-232 | a load is done exactly under its condition; at most one page appears |
| `Sharing.PerformWrite` | kernel/arch/pagefault.c:201-214 | a store is done exactly under its condition and changes one byte of one page of one address space; an absent page also needs the right to read or execute, without which an attempt loses a frame |
| `Sharing.Perform` | kernel/arch/pagefault.c:123-232 | each request is granted exactly under its condition; what it does, also when a fork is refused, is an eager effect on the address spaces and their views; beyond that it changes nothing but write bits, tables and the frame it may lose |
| `Sharing.Run` | kernel/arch/pagefault.c:123-232 | over every run of creations, forks, reads, writes, unmaps, teardowns and exits the address spaces and their views are those of a machine that copies at once; page frames stay counted by the entries that name them; only the frames that faults lose are held outside |
| `Sharing.RunMeans` | kernel/arch/pagefault.c:123-232 | what the answers of a run come to: worlds, counts and frames held outside |
| `Sharing.WriteBitsView` | kernel/arch/x86_64/paging.c:550-554 | clearing write bits changes no view |
| `SearchTree.KeyIsUnique` | kernel/ds/btree.c:47-86 | a key belongs to one node |
| `SearchTree.SearchIsLookup` | kernel/ds/btree.c:165-182 | a search finds exactly the keys of the tree |
| `SearchTree.CutLeavesRoom` | kernel/ds/btree.c:99-111 | cutting a subtree off leaves a gap that holds exactly its keys |
| `SearchTree.HangOrdered` | kernel/ds/btree.c:47-86 | a subtree whose keys fill a gap keeps the order when inserted from the root |
| `SearchTree.HangThenCut` | kernel/ds/btree.c:256-267 | what was inserted is found whole, and cutting it restores the tree |
| `SearchTree.DeletedIsRemoval` | kernel/ds/btree.c:88-124 | deletion by re-insertion removes exactly one node and keeps the order |
| `SearchTree.PartsFit` | kernel/ds/btree.c:113-123 | the right and then the left subtree find gaps that hold exactly their keys |
| `Btree.HangRep` | kernel/ds/btree.c:63-80 | one link and one parent pointer hang a whole subtree in its place |
| `Btree.CutRep` | kernel/ds/btree.c:99-108 | clearing one link cuts off exactly one subtree |
| `Btree.Tree.Lookup` | kernel/ds/btree.c:165-182 | the node with the key; null if and only if there is none |
| `Btree.Tree.Search` | kernel/ds/btree.c:157-163 | ENOENT exactly for absent keys, otherwise the key's value |
| `Btree.Tree.Descend` | kernel/ds/btree.c:63-80 | the node under which the key belongs, unless the key is there |
| `Btree.Tree.InsertNode` | kernel/ds/btree.c:47-86 | EEXIST exactly if the key is there; otherwise the whole subtree hangs in its place |
| `Btree.Tree.InsertBelow` | kernel/ds/btree.c:63-80 | a subtree with a new key hangs under the last node of the search |
| `Btree.Tree.Insert` | kernel/ds/btree.c:184-206 | the map gains exactly the new pair, or is unchanged when the key is there |
| `Btree.Tree.Unhook` | kernel/ds/btree.c:99-108 | no link leads to the node; its subtree is untouched |
| `Btree.Tree.DeleteNode` | kernel/ds/btree.c:88-124 | the tree is the one that re-insertion of the right and then the left subtree gives, with its count |
| `Btree.Tree.Delete` | kernel/ds/btree.c:150-155 | the map loses exactly the key |
| `Btree.CutChild` | kernel/ds/btree.c:256-267 | flushing the left subtree leaves the node where it is |
| `Btree.RightBack` | kernel/ds/btree.c:256-267 | deleting a node without a left subtree puts its right subtree in its place |
| `Btree.Tree.FlushNode` | kernel/ds/btree.c:256-267 | exactly the subtree is gone |
| `Btree.Tree.Flush` | kernel/ds/btree.c:269-274 | the tree is empty and counts nothing |
| `Btree.InOrderAscends` | kernel/ds/btree.c:230-246 | in-order nodes are all nodes, in ascending key order |
| `Btree.WalkIsInOrder` | kernel/ds/btree.c:230-246 | the queue receives all data in key order if and only if no value occurs twice |
| `Btree.Tree.TraverseNode` | kernel/ds/btree.c:230-246 | what a traversal appends to the queue, and when it reports EEXIST |
| `Btree.Tree.Traverse` | kernel/ds/btree.c:248-254 | onto an empty queue: the data in key order if and only if they are distinct |
| `Btree.Tree.SetParent` | kernel/ds/btree.c:55-74 | only the parent link of a subtree's root changes |
| `Btree.Tree.SetChild` | kernel/ds/btree.c:75-78 | the subtree hangs under the last node of the search |
| `Btree.Tree.Attach` | kernel/ds/btree.c:72-79 | both links that hang the subtree into the tree |
| `Btree.Tree.UnhookBelow` | kernel/ds/btree.c:105-108 | clearing the parent's link cuts the subtree off |
| `Btree.Tree.ClearLink` | kernel/ds/btree.c:105-108 | exactly the link to the node is cleared |
| `Btree.Tree.Free` | kernel/ds/btree.c:39-45 | a node outside the tree is zeroed and the tree is untouched |
| `Btree.Tree.Remove` | kernel/ds/btree.c:99-111 | the node is out of the tree and uncounted, and its two subtrees are whole |
| `Btree.Tree.Reinsert` | kernel/ds/btree.c:113-123 | one subtree is back in the tree while the other stays whole |
| `Btree.Tree.PutBack` | kernel/ds/btree.c:113-123 | a subtree, if there is one, is back in the tree and the count is as before |
| `Btree.ChildrenFound` | kernel/ds/btree.c:260 | the left child of a node that a search finds is found |
| `Btree.WalkListsAll` | kernel/ds/btree.c:230-246 | distinct data are all listed |
| `WordScan.HasZeroExact` | kernel/lib/string.c:11-14 | the macro is zero if and only if no byte of the word is zero |
| `WordScan.XorSpread` | kernel/lib/string.c:27-41 | xor with a spread byte compares all bytes of the word with it |
| `WordScan.Memchr` | kernel/lib/string.c:27-41 | the first occurrence within the length, or none |
| `WordScan.Strlen` | kernel/lib/string.c:94-107 | the length, at every alignment |
| `WordScan.Strchrnul` | kernel/lib/string.c:161-182 | the first occurrence or the terminator |
| `WordScan.Strchr` | kernel/lib/string.c:184-187 | the first occurrence, the terminator included, or none |
| `WordScan.SpreadByte` | kernel/lib/string.c:27-41 | multiplication by ONES copies a byte into every byte of a word |
| `WordScan.TestZero` | kernel/lib/string.c:102 | true exactly if the word has no zero byte |
| `WordScan.TestByte` | kernel/lib/string.c:27-41 | true exactly if the word does not contain the byte |
| `CriticalFactorization.NoShortRepetition` | kernel/lib/string.c:252-309 | a repetition around the start of a maximal suffix is longer than what precedes it |
| `CriticalFactorization.OppositeOrderWins` | kernel/lib/string.c:280-309 | what a suffix loses in one byte order it gains in the other |
| `CriticalFactorization.CriticalPosition` | kernel/lib/string.c:252-309 | around the later of the two maximal suffixes every repetition is a period of the whole needle |
| `MaximalSuffix.BlockGrows` | kernel/lib/string.c:267-271 | a smaller byte makes all that was read the new dominant block |
| `MaximalSuffix.StartMoves` | kernel/lib/string.c:272-275 | a greater byte makes every earlier suffix lose to the new start |
| `MaximalSuffix.WholeWord` | kernel/lib/string.c:257-276 | at the end of the needle the suffix found is the greatest |
| `MaximalSuffix.Compute` | kernel/lib/string.c:252-303 | the start of the greatest suffix in either byte order, and its period |
| `Strstr.BadByteShift` | kernel/lib/string.c:343-357 | the shift by the last byte skips no match |
| `Strstr.MemoryShift` | kernel/lib/string.c:346-347 | with a remembered prefix the shift by l - p skips no match |
| `Strstr.RightShift` | kernel/lib/string.c:360-366 | the shift after a mismatch in the right half skips no match |
| `Strstr.LeftShift` | kernel/lib/string.c:368-374 | the shift after a mismatch in the left half skips no match |
| `Strstr.KeepPrefix` | kernel/lib/string.c:373-374 | after a shift by the period the remembered prefix matches |
| `Strstr.BuildShiftTable` | kernel/lib/string.c:242-250 | the tables say where each byte last occurs in the needle |
| `Strstr.Factorize` | kernel/lib/string.c:252-309 | the cut is critical and the period is the least one of the right half |
| `Strstr.ChooseShift` | kernel/lib/string.c:311-319 | the shift is a lower bound for all periods that can matter; memory is kept only for a periodic needle |
| `Strstr.ExtendHaystack` | kernel/lib/string.c:326-340 | whether the window fits, without reading past the terminator |
| `Strstr.LastByteShift` | kernel/lib/string.c:342-357 | no match is skipped |
| `Strstr.CompareRight` | kernel/lib/string.c:359-361 | the first mismatch from the cut on |
| `Strstr.CompareLeft` | kernel/lib/string.c:367-369 | the last mismatch before the cut |
| `Strstr.Search` | kernel/lib/string.c:324-375 | the first occurrence or none |
| `Strstr.TwoWay` | kernel/lib/string.c:235-376 | the first occurrence or none, for every non-empty needle |
| `Strstr.Strstr2` | kernel/lib/string.c:211-217 | the first occurrence or none, by a rolling two-byte window |
| `Strstr.Strstr3` | kernel/lib/string.c:219-225 | the first occurrence or none, by a rolling three-byte window |
| `Strstr.Strstr4` | kernel/lib/string.c:227-233 | the first occurrence or none, by a rolling four-byte window |
| `Strstr.Strstr` | kernel/lib/string.c:378-405 | for every haystack and needle the first occurrence, or none |
| `Strstr.PrefixEquals` | kernel/lib/string.c:311-312 | whether the left half repeats at distance p, reading no further than the terminator |
| `Strstr.CompareWindow` | kernel/lib/string.c:359-374 | a match, or a shift that skips no match together with what is known to match after it |
| `Strstr.StrstrFrom` | kernel/lib/string.c:386-404 | the first occurrence or none, for needles of two bytes or more |
| `Strstr.PeriodicShift` | kernel/lib/string.c:316-318 | for a periodic needle the period of the right half is the period of the whole, and a safe shift |
| `Strstr.AperiodicShift` | kernel/lib/string.c:312-315 | otherwise one more than the longer half is a safe shift |
| `Memmove.Forward` | kernel/lib/string.c:562-577 | copying upwards does not touch the source of later bytes |
| `Memmove.Backward` | kernel/lib/string.c:578-595 | copying downwards does not touch the source of later bytes |
| `Memmove.Memcpy` | kernel/lib/string.c:54-60 | disjoint blocks: the destination becomes the source |
| `Memmove.Up` | kernel/lib/string.c:562-577 | overlap with the destination below |
| `Memmove.Down` | kernel/lib/string.c:578-595 | overlap with the destination above |
| `Memmove.Memmove` | kernel/lib/string.c:550-598 | the destination becomes what the source was and nothing else changes, for every overlap, direction and alignment |
| `Memmove.CopyChunk` | kernel/lib/string.c:570-575 | a byte or a word is read whole before it is written |
| `BitStream.SwapAllReverses` | kernel/include/font/ssfn.h:476-483 | the four mask steps put bit i where bit 15 - i was |
| `BitStream.BitReverse16` | kernel/include/font/ssfn.h:476-483 | the number read from the 16 bits, first bit most significant |
| `BitStream.BitReverse` | kernel/include/font/ssfn.h:485-488 | the number read from the first bits, first bit most significant |
| `BitStream.LowIsReversed` | kernel/include/font/ssfn.h:523-529 | the low bits of an index are a reversed code exactly when the code is read from them |
| `BitStream.JoinJoin` | kernel/include/font/ssfn.h:556-559 | a byte put above the bits of the buffer keeps the stream |
| `CanonicalCode.UniqueHit` | kernel/include/font/ssfn.h:490-534 | codes of two lengths are never both prefixes of the same bits |
| `CanonicalCode.PrefixUnique` | kernel/include/font/ssfn.h:490-534 | at most one code word is a prefix of the bits |
| `CanonicalCode.KraftInequality` | kernel/include/font/ssfn.h:500-510 | the length-by-length test amounts to Kraft's inequality |
| `CanonicalCode.EncodeDecodes` | kernel/include/font/ssfn.h:586-598 | decoding symbol by symbol undoes encoding |
| `CanonicalCode.DecodesUnique` | kernel/include/font/ssfn.h:586-598 | no other symbols can be read from the same bits |
| `CanonicalCode.EncodeHasPrefix` | kernel/include/font/ssfn.h:586-598 | an encoded message begins with its first code word and goes on with the rest |
| `Inflate.IndexInjective` | kernel/include/font/ssfn.h:519-522 | different symbols are stored at different places |
| `Inflate.ZHuffman.FillFast` | kernel/include/font/ssfn.h:523-529 | exactly the indices whose low bits are the reversed code get the entry |
| `Inflate.ZHuffman.CountSizes` | kernel/include/font/ssfn.h:495-502 | how many codes there are of each length, and whether one length has too many |
| `Inflate.ZHuffman.AssignCodes` | kernel/include/font/ssfn.h:503-515 | first codes, first symbols and limits of the canonical code; fails exactly if it is over-subscribed |
| `Inflate.ZHuffman.SetRow` | kernel/include/font/ssfn.h:505-514 | first code, first symbol and limit of one length |
| `Inflate.ZHuffman.EnterFast` | kernel/include/font/ssfn.h:523-529 | each fast entry names the one short code that is a prefix of its index |
| `Inflate.ZHuffman.StoreSymbol` | kernel/include/font/ssfn.h:516-532 | the symbol is stored under its rank and entered in the fast table |
| `Inflate.ZHuffman.Build` | kernel/include/font/ssfn.h:490-534 | a list of lengths is accepted if and only if it is not over-subscribed; the tables then describe its canonical code |
| `Inflate.Zbuf.FillBits` | kernel/include/font/ssfn.h:554-560 | the bits to come are the same, and more than 24 are in the buffer |
| `Inflate.Zbuf.FindLength` | kernel/include/font/ssfn.h:576-578 | the first length whose codes reach beyond the bits |
| `Inflate.Zbuf.SlowPath` | kernel/include/font/ssfn.h:572-584 | the symbol of the long code that is a prefix, or -1 when no code is |
| `Inflate.Zbuf.SymbolAt` | kernel/include/font/ssfn.h:580-583 | the symbol of the code of this length |
| `Inflate.Zbuf.Decode` | kernel/include/font/ssfn.h:586-598 | the symbol of the one code that is a prefix of the stream, which moves on by its length; -1 if and only if there is none |
| `Inflate.ZHuffman.StoreAll` | kernel/include/font/ssfn.h:516-532 | all symbols are stored and entered |
| `Inflate.Zbuf.AddByte` | kernel/include/font/ssfn.h:557-558 | one more byte in the buffer, the same stream |
| `Inflate.Zbuf.Consume` | kernel/include/font/ssfn.h:581-582 | the stream moves on by the length of the code |
| `Inflate.Zbuf.DecodeWindow` | kernel/include/font/ssfn.h:590-597 | with 16 bits in the buffer, the symbol of the one code that is a prefix, or -1 |
| `Inflate.NoShortCode` | kernel/include/font/ssfn.h:590-597 | an empty fast entry means that no code of up to nine bits is a prefix |
| `JpegHuffman.BeginsUnique` | usr/include/nanojpeg.c:725-734 | a value begins with at most one code |
| `JpegHuffman.Table.WriteCode` | usr/include/nanojpeg.c:674-680 | the entries of one code word |
| `JpegHuffman.Table.WriteLength` | usr/include/nanojpeg.c:672-681 | the entries of all code words of one length |
| `JpegHuffman.Table.ClearRest` | usr/include/nanojpeg.c:684-688 | the entries left are exactly those of values that begin with no code |
| `JpegHuffman.Table.Build` | usr/include/nanojpeg.c:655-688 | accepted if and only if the counts are not over-subscribed and the symbols are there; all 65536 entries then name the code their index begins with |
| `JpegHuffman.DecodeIsBegins` | usr/include/nanojpeg.c:725-734 | the bit-by-bit procedure finds the code that a value begins with |
| `JpegHuffman.Table.Lookup` | usr/include/nanojpeg.c:725-736 | one lookup gives the length and symbol that the bit-by-bit procedure gives, and fails exactly when it does |
| `JpegHuffman.PastUsed` | usr/include/nanojpeg.c:684-688 | values past the used part of the table begin with no code |
| `PageCache.ViewOverlay` | kernel/fs/icache.c:141-188 | a write is seen where it went and nowhere else |
| `PageCache.OverlayTwice` | kernel/fs/icache.c:152-180 | writing piece by piece is writing the whole |
| `PageCache.Cache.GetPage` | kernel/fs/icache.c:61-114 | fails exactly when the page is not cached and the store, the allocator, the copy or the index fails; a loaded page shows the stored bytes and zeros |
| `PageCache.Cache.Read` | kernel/fs/icache.c:116-139 | succeeds exactly if every page of the range can be copied, is cached or can be loaded, and there is a frame for each that is not cached; every byte is then the last one written through the cache, else the stored one, else zero |
| `PageCache.Cache.Write` | kernel/fs/icache.c:141-188 | succeeds exactly if every page of the range can be had, also past the end of the file; exactly the data before the first page that cannot be had is written, all of it on success |
| `PageCache.AllUsableMeans` | kernel/fs/icache.c:125-180 | a range can be had page by page if and only if each of its pages can |
| `PageCache.Turn` | kernel/fs/icache.c:125-133 | one turn of the loops ends with its page, and the next begins with the next page |
| `PageCache.Cache.Install` | kernel/fs/icache.c:82-105 | a new page shows the stored bytes followed by zeros |
| `PageCache.Cache.Store` | kernel/fs/icache.c:162-166 | the copy into a page is a write at its offset and keeps every other page |
| `PageCache.Cache.NewPage` | kernel/fs/icache.c:155-178 | a page past the end of the file starts as zeros |
| `Pipe.Ring.Available` | kernel/ds/ringbuf.c:99-106 | the number of bytes in the ring |
| `Pipe.Ring.Read` | kernel/ds/ringbuf.c:66-80 | the oldest bytes, as many as asked for or as there are |
| `Pipe.Ring.Write` | kernel/ds/ringbuf.c:82-97 | as many of the bytes as fit, behind the others |
| `Pipe.System.Take` | kernel/fs/pipefs/pipefs.c:233-235 | what a reader takes leaves the front of the ring and is appended to what it has |
| `Pipe.System.Give` | kernel/fs/pipefs/pipefs.c:269-271 | what a writer gives joins the back of the ring |
| `Pipe.System.RunRead` | kernel/fs/pipefs/pipefs.c:206-240 | a reader stops only with all it wanted, at a closed end with the count or EPIPE, or asleep on an empty ring |
| `Pipe.System.RunWrite` | kernel/fs/pipefs/pipefs.c:242-276 | a writer stops only with all its bytes in, at a closed end with the count or EPIPE, or asleep on a full ring |
| `Pipe.System.WakeUp` | kernel/fs/pipefs/pipefs.c:222-231 | only a sleeper is woken: it goes on until it stops again for its reason, or fails with the error and its bytes moved; no other call changes |
| `Pipe.System.StartReading` | kernel/fs/pipefs/pipefs.c:206-240 | a read adds one call that has run until it stopped; at a closed end it moves no byte |
| `Pipe.System.StartWriting` | kernel/fs/pipefs/pipefs.c:242-276 | a write adds one call that has run until it stopped; at a closed end it moves no byte |
| `Pipe.System.Run` | kernel/fs/pipefs/pipefs.c:158-276 | under every interleaving each event takes the pipe one such step; at every moment the bytes accepted are the bytes delivered followed by the ring; logs only grow, calls are added in the order of their starts and only advance |
| `Pipe.RunMeans` | kernel/fs/pipefs/pipefs.c:158-276 | what the steps of a run come to: logs and calls only grow, a finished call never changes, a closed end stays closed |
| `Pipe.StepAdvances` | kernel/fs/pipefs/pipefs.c:206-276 | one event carries logs and calls on and takes nothing back |
| `Pipe.GrownMeans` | kernel/ds/ringbuf.c:66-97 | what a log has recorded, for each caller and in all, stays a prefix of what it records later |
| `Pipe.Ring.Put` | kernel/ds/ringbuf.c:92-93 | one byte behind the others; no byte in the ring is overwritten |
| `Pipe.System.Receive` | kernel/fs/pipefs/pipefs.c:233 | the bytes taken are credited to the reader and the account of the pipe stays balanced |
| `Pipe.System.Accept` | kernel/fs/pipefs/pipefs.c:269 | the bytes given are credited to the writer and the account of the pipe stays balanced |
| `Pipe.System.Handle` | kernel/fs/pipefs/pipefs.c:158-276 | what one event does to the calls, the logs and the ends: a start adds one call that has run until it stopped, a wake-up advances one call, a close changes a flag |
| `Printf.Put` | kernel/lib/printf.c:138-150 | the next character is written if there is room, and counted in any case |
| `Printf.OutRev` | kernel/lib/printf.c:204-228 | a field: the digits, last one first, with spaces before or after them up to the width |
| `Printf.PutDigits` | kernel/lib/printf.c:296-303 | the digits of the value, last one first, as far as the buffer of 32 reaches |
| `Printf.Form` | kernel/lib/printf.c:232-281 | zeros, prefix and sign are added as far as the buffer reaches, and nothing is written beyond it |
| `Printf.NtoaLong` | kernel/lib/printf.c:286-335 | the text of an integer follows what was written before |
| `Format.ScanSpec` | kernel/lib/printf.c:605-684 | flags, width, precision and length of a conversion, with the arguments they take |
| `Format.Atoi` | kernel/lib/printf.c:193-200 | the digits of the number as unsigned int arithmetic reads them, and where it ends |
| `Format.Strnlen` | kernel/lib/printf.c:176-181 | the length of the string, or the bound if that is less |
| `Format.PutString` | kernel/lib/printf.c:800-824 | at most precision characters of the string, in a field of the width |
| `Format.Convert` | kernel/lib/printf.c:686-853 | each conversion prints its text behind what was written before |
| `Format.Item` | kernel/lib/printf.c:593-853 | one turn of the loop moves one piece of the whole output into the buffer; the scan runs past the terminator exactly if the format ends within a conversion |
| `Format.Vsnprintf` | kernel/lib/printf.c:582-861 | whatever the capacity, the result is the length of the whole output, and the buffer holds its first capacity - 1 characters, a terminator, and nothing else; the scan stays in the format exactly if no conversion is cut off |
| `Format.LonePercent` | kernel/lib/printf.c:588-853 | a format that ends in a percent sign is scanned past its terminator |
| `Format.PlainText` | kernel/lib/printf.c:593-598 | a format without conversions is its own output |
| `Numerals.RestValue` | kernel/lib/printf.c:296-303 | the digits stand for the value if and only if it has no more of them than there is room for |
| `Numerals.ReadReversed` | kernel/lib/printf.c:215-218 | digits printed last one first read as the number they stand for |
| `Numerals.PrintedValue` | kernel/lib/printf.c:235-254 | the digits left after zeros are added and the prefix has made place stand for the value if and only if none of its own is cut |
| `Numerals.FieldReads` | kernel/lib/printf.c:204-281 | prefix, sign and padding do not change what the digits read as, unless the letter of the prefix has no 0 or the sign no room |
| `Numerals.IntReads` | kernel/lib/printf.c:204-306 | the text of every integer reads back, as strtol reads, as that integer if and only if nothing of it is dropped: at most 32 digits, none cut for the prefix, a whole prefix or none, room for a minus sign |
| `Numerals.ConversionReads` | kernel/lib/printf.c:686-760 | that for every integer conversion and its argument |
| `Numerals.PlainReads` | kernel/lib/printf.c:204-306 | without a prefix, and within 31 digits and 32 places, every integer reads back |
| `Numerals.FieldWidth` | kernel/lib/printf.c:204-281 | a field is at least as wide as asked for if and only if it is not filled with zeros, or is at most 32 wide |
| `Numerals.PrefixTakesDigits` | kernel/lib/printf.c:249-254 | %#4x of 0x1234 does not read back |

## Left out

- The kernel half of the page tables, TLB invalidation and the recursive slot: tables are accessed directly, and each operation is one step.
- Page-table entries without an allocated frame behind them: device memory, shared and file-backed pages, and
  `x86_64_map_i`, whose loop is that of `x86_64_map_n` over frames that the entries do not own: in the model every page
  entry owns a reference.
- `x86_64_mprotect`, whose result is a parameter of `Mapping.Protect`, and its effect on hardware entries. `mmap_remove` unmaps pages in `Translations.UnmapBoth` and in the requests of `Sharing.Run`, where the ranges are those of the regions at the time.
- What lies behind the terminator of a format that ends within a conversion; the text of floating-point conversions, which is a parameter; `_out_char` and `_out_fct`; the magnitude of the least integer is taken as exact.
- The four nested loops over the table levels in `x86_64_unmap_full` and `x86_64_lazycpy` are one recursive method per level.
- `used_space`, `vmr.refs`, `file_pos` and the back pointer to the address space in `mmap.c`; failure of the allocator there, but for `mmap_copy` and `mmap_alloc`.
- Signed overflow of the new size in `mmap_vmr_expand`, which C leaves undefined: the sum wraps around.
- Tables of the JPEG decoder are built one at a time; its bit buffer with byte stuffing and markers, and the extension of coefficients.
- The LZ77 part of inflate; reading past the end of the compressed data, which the caller must exclude.
- Code lengths above 15 in `_ssfn__zbuild_huffman`, for which its arrays have no room.
- The bit set of the two-way search is an array of booleans.
- The index tree and the frames of the page cache are a map from page numbers to contents; pages that became invalid, write-back and file size. Whether a page can be copied and entered in the index is one parameter per page.
- Wrap-around of the ring buffer's counters at 2^64, which is harmless because the pipe's size divides 2^64.
- The choice of who is woken on a condition variable: any sleeper may be woken, or interrupted, at any time.
- `btree_least`, `btree_largest` and `kernel/ds/hash.c`, which have no loop or state beyond what is modelled here.
- Fork.CopyLeaf: the second reference is counted before the second entry is stored; the order in the code differs and is not visible with the lock held.
- Fork.LazyCpy: the destination's lower half is empty, as it is after `x86_64_pml4alloc`; the code does not test it. The frames that cannot be mounted are the same for the whole call.
- Paging.Machine.Map, Paging.Machine.MapPt and Paging.Machine.MapPdt: indices of the kernel half are left out; the frame mapped is in hand.
- Sharing.Run: a request that names an address space that does not exist is refused; the code has no such test.
- Tests of arguments for null pointers.
- Locks: every operation runs with the locks it asserts.
