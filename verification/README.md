# elfuse: guest memory, image loading and packaging, modelled and proved

elfuse runs Linux binaries in a small virtual machine. This project models, in
Dafny, the parts of it where a mistake is hardest to see: the guest memory manager,
the ELF loader that feeds it, and three smaller algorithms. Each module states what
the code promises and proves it for every input, every run or every interleaving.

`dafny verify dfyconfig.toml` checks everything.

## Modules

- `Descriptors`, `PageTables`, `Tlbi`, `GuestTables`: AArch64 translation tables in a
  bump-allocated pool. Reachable tables form a tree of distinct pool pages; over that
  tree every mutator refines a per-page map (`K` is the shape of a 2 MiB block, `P`
  the translation of a page). Every step a mutator takes is logged as an atomic event.
- `Walker`: the lock-free walk and its generation-tagged cache, one load per step,
  interleaved with any legal mutator steps of any number of threads.
- `BootTables`, `LazyFault`: the boot-time builder and lazy materialization.
- `Regions`, `RegionEdits`, `RegionInvariant`, `RegionTracker`: the region table, as
  functions on sequences, and the in-place array code proved against them. The run
  invariant `Good` ties the table to a naive address map kept beside it.
- `ElfImage`, `ElfMapper`, `BootAgreement`: parsing and loading an image, and the
  agreement of tables and tracker about it.
- `GuestCopy`: copying through translation, against byte-by-byte access. `IpaSpace`:
  the physical address space. `Slab`: memset and memcpy.
- `Packing`, `Symlinks`, `GuestEnv`: longest-first packing, rooted link resolution,
  the guest environment.

## How the source is read

- Addresses are natural numbers; the 64-bit wrap-around the code guards against is
  written out where it guards (`AddNoWrap`, `AlignUp64`, the limits in `GuestCopy` and
  `IpaSpace`). Tables are counted in 4 KiB frames; virtual addresses translate below
  2^48. `ipa_base` is 0.
- Release stores and acquire loads are ordered atomic steps. The mutator holds its
  lock, so there is one; walkers hold none.
- What the host decides is a parameter: the result of `dup`, whether host memory could
  be mapped, the file's bytes. Host copies do not fault.
- A descriptor handed to the tracker is open beforehand and counted until it is owned
  or closed, so a leak or a double close breaks a postcondition.

## Where the code does not do what one might expect

- A boot region that asks for no permission maps nothing unless regions like it cover
  its whole 2 MiB block (`SilentRegionUnmapped`); `MappedExactly` is the exact rule.
- When a `dup` fails during a re-protection, the split-off half has lost its file, and
  two neighbours can be left that could be merged: exactly when a tail is shed that the
  next region continues (`UnmergedExactly`; `LooseRun` gets there). The run invariant
  keeps track: neighbours can be merged only where such tails ended, and the claim about
  files holds for runs in which no duplicate that was asked for failed.
- `guest_overflow_alloc` hands out a block that is 2 MiB-aligned exactly when its
  segment is, and a segment is placed right behind extra mappings, of which
  `guest_add_mapping` only asks for page alignment (`OverflowAlloc`, `UnalignedBlock`).
- Normalizing a link target textually is what following it means in every tree exactly
  when no dot-dot comes after a name in it (`KeptExactly`).
- A cache hit in `gva_translate_perm` does not look whether the address is backed, so it
  can answer for a byte that may not be accessed (`UnbackedHit`): it refuses exactly the
  inaccessible bytes the cache does not answer for (`TranslatePerm`). Its callers do look,
  so no copy routine's answer depends on it (`Resolve`).
- `guest_extend_page_tables`, `guest_map_va_range` and `guest_install_va_pages` that stop
  half way keep what they have changed, with no generation bump and no flush request.
  Where they stop, and when that leaves a change uncovered, is exact: `StopsAt` and
  `LeftUnflushed` for the first two, `StopsInstalling` and `InstallLeftUnflushed` for the
  third. `StuckExtend` and `StuckInstall` get there. `guest_invalidate_ptes` and
  `guest_update_perms` stop as exactly (`StopsCutting`), but with their flush requested.
- On a nonempty range that ends in the last 2 MiB of the 64-bit space the counter of
  `guest_invalidate_ptes` and `guest_update_perms` wraps before it reaches the end
  (`RunawaySkips`).
- `guest_materialize_lazy` does not look at the result of its last step. It need not:
  that step cannot fail there (`MapLazy`).

## Model

| member | source | states |
|---|---|---|
| `Descriptors.WordsRead` | src/core/guest.c:2633-2665 | for every address and permissions a block or page word decodes to exactly that address, kind and the permissions it can express, and a table word to its address: no field reaches another |
| `PageTables.StepKeepsTree` | src/core/guest.c:288-322 | every atomic step a mutator may take (grab a pool page, fill it, publish it, store a leaf, bump) keeps the reachable tables a tree of distinct pool pages |
| `PageTables.GrabEffect` | src/core/guest.c:288-322 | taking a page from the pool changes no translation, whatever the page holds |
| `PageTables.FillEffect` | src/core/guest.c:3220-3253 | filling a page that no table names yet changes no translation |
| `PageTables.StorePageEffect` | src/core/guest.c:3265-3354 | storing one L3 descriptor changes the translation of exactly one page |
| `PageTables.StoreBlockEffect` | src/core/guest.c:3356-3507 | storing one L2 leaf changes the translation of exactly one 2 MiB block |
| `PageTables.PublishEmptyEffect` | src/core/guest.c:2954-3078 | linking an empty L1 or L2 table changes no translation |
| `PageTables.PublishSplitEffect` | src/core/guest.c:3220-3253 | flipping a block descriptor to a table that repeats it changes no translation |
| `Tlbi.RequestRange` | src/core/guest.h:716-785 | folding a range into the pending request loses no page already covered, covers the whole new range, keeps the request encodable, and gives up to a broadcast only when a span exceeds the cap |
| `Tlbi.LargeRangeEncoded` | src/core/guest.h:365-376 | the single range instruction reaches every page of a large request and at most one past it |
| `GuestTables.Guest.PtAllocPage` | src/core/guest.c:288-322 | hands out the next pool page zeroed and linked nowhere, or fails exactly when the pool is exhausted; no translation changes |
| `GuestTables.Guest.NewRoot` | src/core/guest.c:2831-2860 | a fresh root maps nothing and starts a valid tree; fails exactly when the pool is exhausted |
| `GuestTables.Guest.EnsureL2` | src/core/guest.c:2954-3078 | finds or links the L2 table of a block without changing any translation; succeeds exactly when the pool has the upper tables the walk to the block lacks, and takes exactly those |
| `GuestTables.Guest.SplitBlock` | src/core/guest.c:3220-3263 | a split turns one block descriptor into a table and leaves the translation of every page of the address space as it was; succeeds exactly when there is something to split and a page for it |
| `GuestTables.Guest.InvalidatePtes` | src/core/guest.c:3265-3354 | the pages of the range translate nowhere up to the first block that has to be split and cannot be, every other page as before, with the shape of every block given; succeeds exactly when the pool has a page for every whole block the range cuts; the flush request covers every change; the generation moves only on success; refused with nothing touched when rounding the end up would wrap |
| `GuestTables.Guest.UpdatePerms` | src/core/guest.c:3356-3507 | every page of the range in a block with an L2 entry carries the permissions, up to the first block that has to be split and cannot be: mapped pages keep their frame, unmapped ones are revived at their region's backing, blocks with no entry stay absent, nothing else changes; succeeds exactly when the pool has a page for every whole block with other permissions the range cuts; an executable kbuf alias and a wrapping end are refused; the flush covers every change, the instruction cache included when code appears |
| `GuestTables.CuttingIff` | src/core/guest.c:3280-3354 | going through a range block by block gets to its end exactly when the pool has a page for every split up to the last block |
| `GuestTables.Guest.RepermPages` | src/core/guest.c:3422-3503 | the pages of one split block after a re-permissioning, page by page |
| `GuestTables.Guest.ExtendPageTables` | src/core/guest.c:2954-3078 | blocks of the range without an L2 entry become identity blocks up to the first one the pool has no tables for, blocks with one stay exactly as they were, nothing else changes; succeeds exactly when the range is inside the slab and its blocks lack no more tables than the pool has; on success the flush covers every change, on failure the pending request is as before but for the instruction cache mark |
| `GuestTables.Guest.MapVaRange` | src/core/guest.c:1133-1229 | the same for an aligned virtual range onto an aligned physical one; misaligned and empty ranges are refused with nothing touched, and the range must end within 2^48 |
| `GuestTables.Guest.InstallVaPages` | src/core/guest.c:3509-3589 | each page of the range maps to its own frame in order, whole blocks under it are split, up to the first page whose block has no entry or cannot be split, and nothing else changes; bad arguments and code in the kbuf window are refused with nothing touched; on success the flush covers every change, on failure the pending request is as before but for the instruction cache mark |
| `GuestTables.LeftBehind` | src/core/guest.c:3004-3078 | a mapping that stopped for want of tables has changed something exactly when a block without an entry came before the stop |
| `GuestTables.LeftUnflushed` | src/core/guest.c:3004-3078 | the pending request covers those changes exactly when it covered every such block already |
| `GuestTables.InstallLeftUnflushed` | src/core/guest.c:3544-3589 | what an installation that stopped has changed is covered by the pending request exactly when that covered every page before the stop that was not already what is installed |
| `GuestTables.SecondBlockStuck` | src/core/guest.c:3004-3078 | two blocks in different gigabytes, no table above them and two pool pages left: the first block is mapped, the second is not, and no flush is asked for |
| `GuestTables.StuckExtend` | src/core/guest.c:3004-3078 | extending a fresh guest with a pool of three pages by such blocks fails with the first one mapped and no flush asked for |
| `GuestTables.StuckInstall` | src/core/guest.c:3544-3589 | installing two pages, the second in a block with no entry: the first is remapped, the call fails, and no flush is asked for |
| `GuestTables.Guest.EmitRequest` | src/core/guest.h:679-714 | the pending request goes out and nothing is pending |
| `GuestTables.RunawaySkips` | src/core/guest.c:3281-3288 | on a range that ends in the last 2 MiB of the 64-bit space skipping a block always leads below the end again, and no block there has an entry |
| `Walker.RunIsGood` | src/core/guest.c:1337-1451 | in every interleaving of walkers and mutator steps the tables stay a tree and every walker holds a published table of its own address |
| `Walker.LoadsReadPublishedTables` | src/core/guest.c:357-396 | no load of any walker in any interleaving reads a table that is still being filled |
| `Walker.WalksAreExact` | src/core/guest.c:1337-1451 | a walk that ends returns exactly the translation the tables denote at the instant of its last load |
| `Walker.SplitIsInvisible` | src/core/guest.c:3220-3253 | every step of a split, and of linking an upper table, leaves every walker's answer as it was |
| `Walker.LinesWereExact` | src/core/guest.c:1410-1450 | every cache line said exactly what the tables said at some instant no older than its generation tag |
| `Walker.HitsAreCurrent` | src/core/guest.c:1322-1335 | a cache hit returns what the tables denoted at some instant of the current generation |
| `Walker.HitsPostdateTheBump` | src/core/guest.c:3352 | so a hit is younger than every completed generation bump: no descriptor overwritten before the bump is returned after it |
| `Walker.GenerationsGrow` | src/core/guest.h:597-610 | the generation never goes back in any run |
| `Walker.MutatorRunsAlone` | src/core/guest.c:386-396 | walkers never disturb a mutator: its logged steps stay legal and have the effect they would have alone |
| `BootTables.Collect` | src/core/guest.c:2713-2741 | gathers exactly the regions touching a block, sorted by start, and tells exactly whether they agree on permissions |
| `BootTables.Sweep` | src/core/guest.c:2743-2761 | the coverage sweep answers yes exactly when every byte of the block is covered |
| `BootTables.ApplyRange` | src/core/guest.c:2776-2807 | a region contributes to exactly the pages it touches, except a last page that a later region starts on |
| `BootTables.FinalizeBlock` | src/core/guest.c:2683-2829 | splits a block that is not uniform and gives each of its pages the permission of its owner, or none |
| `BootTables.FinalizeBlockPerms` | src/core/guest.c:2683-2829 | visiting blocks in any multiplicity leaves each settled block settled |
| `BootTables.BuildPageTables` | src/core/guest.c:2831-2946 | a successful build maps each page to itself with the permissions of the last region touching it, and maps no page no region touches; it fails only for an exhausted pool or code in the kbuf window |
| `BootTables.MappedExactly` | src/core/guest.c:2776-2826 | a page is mapped exactly when some region touches it and the last such region asks for a permission or the block is uniform |
| `BootTables.MappedIffTouched` | src/core/guest.c:2831-2946 | when no region asks for nothing, mapped and touched are the same thing |
| `BootTables.SilentRegionUnmapped` | src/core/guest.c:2809-2826 | without that they are not: a region asking for nothing in a partly covered block stays unmapped |
| `BootTables.NoNewWritableCode` | src/core/guest.c:2831-2946 | no built page is writable and executable unless one of the regions touching it was |
| `LazyFault.MaterializeLazy` | src/core/guest.c:3593-3674 | a successful fault maps exactly the region's pages of the faulting block with the region's permissions, clears exactly those bytes, leaves every other translation alone, and covers every change with a flush; it declines exactly for untracked, non-lazy or out-of-slab faults and when the pool has fewer pages than the block lacks tables |
| `LazyFault.Prepare` | src/core/guest.c:3632-3660 | whether the block was absent, whole or split, extending, splitting and trimming leave other pages alone and only the region's pages mapped; succeeds exactly when the pool has the upper tables and, for part of a block, the L3 table it lacks |
| `LazyFault.IdentityMaterialized` | src/core/guest.c:3660-3664 | for an identity-mapped region every page of the range stays where it was mapped or is mapped to itself, whether or not its block had an entry |
| `Slab.ZeroBytes` | src/core/elf.c:824-826 | clears exactly the given bytes |
| `Slab.CopyIn` | src/core/guest.c:71-76 | writes exactly the given bytes at the given place |
| `Regions.Find` | src/core/guest.c:2427-2442 | the binary search finds the region holding an address, or none exactly when none does |
| `Regions.MergeKeepsMap` | src/core/guest.c:2048-2078 | merging two neighbours changes what the table says of no address |
| `Regions.MergeKeepsOwners` | src/core/guest.c:1967-2004 | merging moves no descriptor: only regions without one can merge |
| `Regions.MergeDownKeeps` | src/core/guest.c:2599-2610 | a merging pass keeps order, capacity, owners, id bound and every address |
| `Regions.MergeDownSettles` | src/core/guest.c:2599-2610 | after a merging pass neighbours can be merged exactly where pairs outside its window could be before |
| `Regions.InsertSays` | src/core/guest.c:2213-2245 | inserting a region clear of the others changes exactly the addresses of its interval |
| `RegionEdits.RemovedSays` | src/core/guest.c:2298-2417 | removing a range empties it and leaves every other address as it was, unless a full table drops a tail |
| `RegionEdits.RemovedSorted` | src/core/guest.c:2298-2417 | what is left of a sorted disjoint table is sorted and disjoint |
| `RegionEdits.RemovedApart` | src/core/guest.c:2298-2417 | what is left is clear of the range |
| `RegionEdits.RemovedQuiet` | src/core/guest.c:2298-2417 | removing brings no two mergeable regions together |
| `RegionEdits.CutOwners` | src/core/guest.c:2340-2400 | a region swallowed gives up its descriptor, one trimmed keeps it, one cut in the middle shares with a duplicate |
| `RegionEdits.ReprotSays` | src/core/guest.c:2487-2592 | unless the table ran full, re-protecting sets the protection of tracked addresses in the range and changes nothing else of any address |
| `RegionEdits.ReprotSorted` | src/core/guest.c:2487-2592 | the re-protected table is sorted, disjoint and within capacity |
| `RegionEdits.ReprotQuiet` | src/core/guest.c:2487-2592 | outside the range neighbours can be merged afterwards exactly where they could be before, and where a region crossing the end of the range sheds a tail the next region continues |
| `RegionEdits.SettleQuiet` | src/core/guest.c:2599-2610 | merging around the regions that were set leaves exactly the mergeable pairs that were not set |
| `RegionEdits.ReprotStale` | src/core/guest.c:2504-2560 | a re-protection leaves the table out of date exactly when it has no slot for a split it needs |
| `RegionEdits.SettledExactly` | src/core/guest.c:2487-2611 | a whole re-protection adds to the places where neighbours can be merged exactly the ends of its loose tails: tails split off without their descriptor that the next region continues |
| `RegionEdits.UnmergedExactly` | src/core/guest.c:2487-2611 | after re-protecting a table with nothing to merge there is something to merge exactly when a file-backed region crosses the end, has a slot to split, loses the duplicate, and is then continued by the next region |
| `RegionInvariant.AddGood` | src/core/guest.c:2190-2267 | adding keeps the run invariant: sorted, within capacity, descriptors owned once, ids bounded, nothing mergeable but at the loose tails, every address as in the naive map |
| `RegionInvariant.RemoveGood` | src/core/guest.c:2298-2417 | removing keeps the run invariant, clears exactly the range in the naive map, and leaves nothing to merge where there was nothing |
| `RegionInvariant.ReprotGood` | src/core/guest.c:2487-2611 | re-protecting keeps the run invariant, re-protects exactly the range in the naive map, loses a file exactly when a duplicate that was asked for failed, and adds exactly its loose tails |
| `RegionInvariant.Owners` | src/core/guest.c:2190-2267 | under the invariant no descriptor is owned twice and every owned one is open |
| `RegionInvariant.RoomServes` | src/core/guest.c:2487-2592 | while the table had room and no duplicate failed, every file-backed region that was split got its duplicate |
| `RegionInvariant.AddQuiet` | src/core/guest.c:2213-2255 | adding a region leaves nothing to merge where there was nothing |
| `RegionInvariant.OpenGood` | src/core/guest.c:2269-2296 | opening a descriptor for the table disturbs nothing |
| `RegionTracker.Tracker.LowerBoundStart` | src/core/guest.c:2012-2025 | the first region starting at or after an address |
| `RegionTracker.Tracker.FirstEndAbove` | src/core/guest.c:2030-2043 | the first region ending above an address |
| `RegionTracker.Tracker.TryMerge` | src/core/guest.c:2048-2078 | merging a pair in place, the entries behind moving down |
| `RegionTracker.Tracker.Compact` | src/core/guest.c:2313-2402 | the two-cursor compaction writes exactly what removing means, closes exactly the descriptors of swallowed regions, and sets the stale flag exactly when a full table drops a tail |
| `RegionTracker.Tracker.RemoveReserved` | src/core/guest.c:2298-2417 | keeps the run invariant; the reserved descriptor goes to the split-off tail or is closed, never leaked |
| `RegionTracker.Tracker.RemovePrepare` | src/core/guest.c:2269-2296 | duplicates a descriptor exactly when a file-backed region is cut in the middle and the table has room; fails exactly when that duplicate cannot be had |
| `RegionTracker.Tracker.Remove` | src/core/guest.c:2419-2425 | changes nothing, or forgets exactly the range, in the table and in the naive map; leaves nothing to merge where there was nothing |
| `RegionTracker.Tracker.AllocateId` | src/core/guest.c:2159-2211 | a new id is one above the mark, an explicit one raises the mark |
| `RegionTracker.Tracker.Add` | src/core/guest.c:2190-2267 | refuses exactly when full, closing the descriptor; else tracks exactly the new interval, under a new, explicit or adopted id, and merges; leaves nothing to merge where there was nothing |
| `RegionTracker.Tracker.AddElfSegment` | src/core/guest.c:2134-2150 | takes over the segment's whole pages from whatever was tracked there |
| `RegionTracker.Tracker.StepSlot` | src/core/guest.c:2498-2592 | one round of the re-protection loop: skip, split or set, as the specification says of that region |
| `RegionTracker.Tracker.Reprotect` | src/core/guest.c:2487-2592 | the in-place loop produces the specified table, with duplicates of the right files and the window of slots that were set |
| `RegionTracker.Tracker.SetProt` | src/core/guest.c:2487-2611 | keeps the run invariant and re-protects exactly the range, an empty one not at all; stale exactly when the table had no slot for a needed split, lost exactly when a duplicate that was asked for failed; a table with nothing to merge is left so exactly when no loose tail is shed |
| `RegionEdits.SurroundedDamages` | src/core/guest.c:2504-2580 | an empty range strictly inside a region would be split at both its ends into a table that is not sorted |
| `RegionTracker.Tracker.Clear` | src/core/guest.c:2613-2628 | closes every owned descriptor and forgets everything |
| `RegionTracker.LooseRun` | src/core/guest.c:2527-2611 | a run from an empty tracker that maps a file and re-protects it three times with no descriptor to spare reaches a valid table with two mergeable neighbours |
| `ElfImage.SortSegments` | src/core/elf.c:258-269 | the in-place insertion sort yields the sorted sequence and leaves the slots behind alone |
| `ElfImage.InOrderIs` | src/core/elf.c:258-269 | sorting puts segments in ascending order and is a permutation |
| `ElfImage.InOrderClaims` | src/core/elf.c:258-269 | sorting changes for no address how many segments claim it |
| `ElfImage.FirstOverlap` | src/core/elf.c:279-286 | on sorted nonempty segments the neighbour scan finds nothing exactly when no byte is claimed twice; what it finds share a byte |
| `ElfImage.ElfInfo.RecordLoad` | src/core/elf.c:360-440 | records a loadable segment and folds it into the bounds, skips an empty one, refuses exactly the unloadable and the seventeenth |
| `ElfImage.ElfInfo.FindTable` | src/core/elf.c:618-626 | finds the program headers exactly when some segment holds them, at the address that segment gives them |
| `ElfImage.ElfInfo.Load` | src/core/elf.c:510-634 | accepts exactly tables that fit the file and whose mapping headers are loadable, one to sixteen, and claim no byte twice; records them sorted, with exact bounds and program header address |
| `ElfImage.SortedLoads` | src/core/elf.c:360-440 | the recorded segments are the table's, sorted, each nonempty, inside the file and free of wrap-around |
| `ElfImage.AcceptedInLine` | src/core/elf.c:360-440 | the segments of an accepted image run one behind the other |
| `ElfMapper.PlaceIs` | src/core/elf.c:191-245 | the 64-bit placement equals exact arithmetic: accepted exactly when inside window and slab and, to the end of its last page, off the reserve |
| `ElfMapper.CheckPlacement` | src/core/elf.c:757-775 | accepts exactly when every segment can be placed |
| `ElfMapper.ClearTails` | src/core/elf.c:817-827 | the first pass clears exactly the tails, refuses exactly an unplaceable segment, and never writes the reserve |
| `ElfMapper.ReadFiles` | src/core/elf.c:829-848 | the second pass puts the file bytes of the last segment claiming it at every claimed address, changes nothing else, and fails exactly on a short file |
| `ElfMapper.MapSegments` | src/core/elf.c:777-851 | at every address the file byte of the last segment claiming it, zeros in every tail no file range claims, everything else untouched; segments that share no byte are all loaded whole; refuses exactly an unplaceable segment or a short file; the reserve is never written |
| `ElfMapper.OrderIrrelevant` | src/core/elf.c:777-851 | the loaded memory depends on the set of segments, not their order |
| `ElfMapper.ParsedIsReady` | src/core/elf.c:360-440 | what the parse accepts the mapper can refuse, on the same file, only for where it lands |
| `ElfMapper.TableDelivered` | src/core/elf.c:618-626 | guest memory at the relocated address holds exactly the program header table |
| `ElfMapper.LoadImage` | src/core/elf.c:757-851 | parse, check and map: once the check accepts, mapping succeeds, loads the image, delivers the program headers, and a refusal leaves memory as it was |
| `BootAgreement.AppendSegments` | src/core/bootstrap.c:47-81 | appends one boot region per segment in order, failing exactly when the list is full |
| `BootAgreement.RegisterSegments` | src/core/bootstrap.c:88-102 | each page ends up tracked with the protection of the last listed segment on it, and with room for them all every segment is tracked |
| `BootAgreement.OwnerIsLast` | src/core/guest.c:2789-2807 | for sorted segments, the last listed and the last to start on a page are the same |
| `BootAgreement.TablesFollowOwner` | src/core/guest.c:2789-2829 | the tables give each page of the image the permission of its owner |
| `BootAgreement.SegmentsAgree` | src/core/elf.c:279-286 | segments that do not run together give boot regions that do not clash |
| `BootAgreement.BootImage` | src/core/bootstrap.c:67-102 | booting an accepted image succeeds unless the pool runs out or code would alias the kbuf window, and then tables and tracker agree on every byte: mapped and tracked together, same permissions, same backing, pages shared by two segments included |
| `BootAgreement.BootFile` | src/core/bootstrap.c:477-510 | from program headers to a booted image: what the parse accepts and the slab has room for is loaded byte for byte and, unless the pool runs out or code would alias the kbuf window, booted with tables and tracker in agreement |
| `GuestCopy.GuestMemory.TranslatePerm` | src/core/guest.c:1322-1451 | whether by cache or by walk, the answer is a run of addresses to which the tables send every byte of the chunk; it refuses exactly when the cache does not answer for the byte and the byte may not be accessed; a successful walk leaves exactly its block or page in the cache, anything else leaves the cache alone |
| `GuestCopy.UnbackedHit` | src/core/guest.c:1329-1335 | with a block of which only the first half is backed, looking up its first byte makes the cache answer for a byte of the other half, which may not be accessed |
| `GuestCopy.Clamp` | src/proved/gva.h:236-250 | the smallest of the chunk, what is left of the region and what is left of the limit, and so at least one byte |
| `GuestCopy.GuestMemory.ContiguousAvail` | src/core/guest.c:1453-1520 | counts only bytes that translate in one run to backed memory, at least one, and stops only at the limit, the end of a buffer, or a byte that is elsewhere or not accessible |
| `GuestCopy.GuestMemory.Resolve` | src/core/guest.c:1530-1593 | a pointer with the longest run of accessible bytes inside one buffer, up to the limit and never empty, or none exactly when the first byte may not be accessed |
| `GuestCopy.GuestMemory.Read` | src/core/guest.c:1622-1662 | succeeds exactly when every byte of the span may be read, and then delivers exactly those bytes |
| `GuestCopy.GuestMemory.ReadSmall` | src/core/guest.c:1664-1673 | the fast path gives the same answers |
| `GuestCopy.GuestMemory.WritePartial` | src/core/guest.c:1680-1703 | writes the longest writable prefix, byte for byte, the last writer of a shared frame winning, and nothing else |
| `GuestCopy.GuestMemory.Write` | src/core/guest.c:1675-1678 | succeeds exactly when every byte of the span may be written, and then memory is as after writing byte by byte |
| `GuestCopy.GuestMemory.WriteSmall` | src/core/guest.c:1705-1714 | the fast path gives the same answers |
| `GuestCopy.GuestMemory.ReadStr` | src/core/guest.c:1716-1760 | returns the length of a string whose terminator is readable within the buffer, else fails with the readable part terminated |
| `GuestCopy.GuestMemory.ReadStrSmall` | src/core/guest.c:1762-1792 | the fast path gives the same answers |
| `GuestCopy.LineRun` | src/core/guest.c:1329-1335 | a cache line that says what the tables say translates every byte it covers as they do |
| `GuestCopy.LastToChunk` | src/core/guest.c:1637-1655 | a chunk that lands on one run of addresses is the last writer of exactly those |
| `IpaSpace.SkipMappings` | src/core/guest.c:994-1011 | ends, and gives the lowest placement clear of every mapping, or none when the address space has none |
| `IpaSpace.AheadShrinks` | src/core/guest.c:994-1011 | each skip leaves strictly fewer mappings ahead |
| `IpaSpace.Space.MappingOverlaps` | src/core/guest.c:820-847 | says no exactly when the range is nonempty, does not wrap and is clear of slab, mappings and segments |
| `IpaSpace.Space.AddMapping` | src/core/guest.c:849-909 | adds exactly a page-aligned free range while there is a slot; everything stays pairwise disjoint |
| `IpaSpace.Space.OverflowAlloc` | src/core/guest.c:952-1037 | hands out a block disjoint from every block handed out since the last release, from the first segment with room, else from a new segment at the lowest free placement; fails exactly when no segment has room and none can be added; the block is 2 MiB-aligned exactly when its segment is; everything stays pairwise disjoint |
| `IpaSpace.UnalignedBlock` | src/core/guest.c:849-1037 | after one page is mapped right behind an aligned slab, the block handed out starts behind that page and is not 2 MiB-aligned |
| `IpaSpace.Space.ReleaseMappings` | src/core/guest.c:765-777 | forgets the extra mappings and keeps the rest disjoint |
| `IpaSpace.Space.ReleaseOverflow` | src/core/guest.c:745-758 | forgets the segments, so that their blocks may be handed out again |
| `Packing.PackTargets` | scripts/check-mutants.py:1872-1895 | every target in exactly one of at most N nonempty groups in name order; of m groups none above the average plus (m - 1)/m of the heaviest target, nor above 4/3 - 1/(3m) of the heaviest group of any packing into N groups; raises exactly without a bucket |
| `Packing.PackStep` | scripts/check-mutants.py:1890-1894 | putting the next lighter target in a least-loaded group keeps the greedy invariant |
| `Packing.NearAverage` | scripts/check-mutants.py:1872-1895 | m times any group is at most the total plus (m - 1) times the heaviest target |
| `Packing.FourThirds` | scripts/check-mutants.py:1872-1895 | 3m times any group is at most 4m - 1 times the limit any other packing keeps |
| `Packing.GroupWorth` | scripts/check-mutants.py:1872-1895 | in a packing within a limit below three times a weight, no group holds more than two targets of that weight, or one too heavy to share |
| `Packing.SortByIs` | scripts/check-mutants.py:1888-1893 | the sort orders and permutes |
| `Packing.SortByStable` | scripts/check-mutants.py:1888-1893 | elements that rank alike keep their order |
| `Symlinks.RelativeTargetIs` | scripts/elfuse-oci.py:74-86 | a rewritten target climbs from the link to the root and goes where the normalized target goes, and is relative |
| `Symlinks.ResolveInRoot` | scripts/elfuse-oci.py:88-114 | the loop ends with the resolution, whose result has no dot-dot and no unresolved link in any proper prefix, nor at its end when the last link is followed; more than 40 links are an error |
| `Symlinks.ResolveShape` | scripts/elfuse-oci.py:88-114 | the same for a resolution under way |
| `Symlinks.RewriteLinks` | scripts/elfuse-oci.py:309-321 | the walk rewrites exactly the absolute targets |
| `Symlinks.RewriteKeeps` | scripts/elfuse-oci.py:313-321 | for every tree and every path, rewriting absolute targets in which no dot-dot follows a name changes neither the result of a resolution nor its error |
| `Symlinks.UntameChanges` | scripts/elfuse-oci.py:74-86 | for every absolute target in which a dot-dot follows a name there is a tree in which rewriting it changes where it leads |
| `Symlinks.KeptExactly` | scripts/elfuse-oci.py:313-321 | rewriting an absolute target is invisible in every tree exactly when no dot-dot follows a name in it |
| `Symlinks.RewriteSettles` | scripts/elfuse-oci.py:313-321 | afterwards no target is absolute, and rewriting again changes nothing |
| `Symlinks.DotDotTargetChanges` | scripts/elfuse-oci.py:84-86 | two links in which such a target changes its meaning |
| `Symlinks.CompsJoin` | scripts/elfuse-oci.py:95 | joining components and splitting them again gives them back |
| `GuestEnv.EnvFind` | src/core/guest-env.c:44-50 | the first entry that sets the name of a token |
| `GuestEnv.HostLookup` | src/core/guest-env.c:56-63 | the value of the first host entry of the name, or none |
| `GuestEnv.CopyHost` | src/core/guest-env.c:88-105 | copies exactly the first well-formed entry of each name, in order |
| `GuestEnv.Build` | src/core/guest-env.c:65-148 | the vector is the ordered-map fold of host entries and overrides, never longer than the computed capacity; refused exactly for an empty override name |
| `GuestEnv.BuiltVector` | src/core/guest-env.c:65-148 | each name is set once, to what the last effective override says, else to the host's first entry unless cleared; a bare name imports from the host even when cleared |
| `GuestEnv.MergedGet` | src/core/guest-env.c:107-139 | the last effective override of a name wins over the base |
| `GuestEnv.MergedSlots` | src/core/guest-env.c:132-138 | no override moves a name from its slot |
| `GuestEnv.BaseGet` | src/core/guest-env.c:88-105 | among duplicate host entries the first wins, as in the host's own lookup |
| `GuestEnv.FoundIsSlot` | src/core/guest-env.c:44-50 | the prefix comparison finds a name exactly when that is the entry's whole name |

## Left out

- Hypervisor calls, host memory mapping and unmapping, launch, teardown and reset: foreign calls.
- Host fault recovery in the copy routines, and so their return value -2: host copies are total.
- Overlay sub-ranges of regions: treated as inactive, so they never keep regions apart.
- Kbuf aliases, Rosetta images and non-identity boot regions: only the refusal of an executable kbuf alias is kept.
- Region range queries (uniform protection, noreserve, read-only backing) and id reseeding after fork: linear scans.
- Truncation of region names to their fixed buffer: a name is taken as already cut.
- PT_INTERP, shebang lines, the ELF identification bytes and decoding a header from bytes: the parse starts from decoded program headers.
- BootAgreement.BootImage: boots one image into empty tables and an empty tracker, without the shim, heap and stack regions; TablesFollowOwner allows any other regions that stay off the page.
- BootAgreement.RegisterSegments: the original ignores whether a segment could be tracked; the claim is for when all were, which BootImage shows for a fresh tracker.
- GuestTables.Guest.InvalidatePtes: not for nonempty ranges that end in the last 2 MiB of the 64-bit space but not in its last 4095 bytes, where the loop counter wraps (RunawaySkips).
- GuestTables.Guest.UpdatePerms: the same ranges.
- LazyFault.MaterializeLazy: the faulting region is page-aligned and the slab is whole 2 MiB blocks.
- GuestCopy.GuestMemory.Write: the tables are fixed, so a write into the memory that holds them is not followed.
- RegionTracker.Tracker.SetProt: not for an empty range strictly inside a region, which would damage the table (SurroundedDamages); sys_mprotect returns before it for a length of 0 (src/syscall/mem.c:4831).
- Packing.PackTargets: the mutation list is a map from targets to counts.
- Symlinks.RewriteLinks: directory modes and the removal of /etc/hosts and /etc/resolv.conf are not part of it, and the order of the walk is free.
- Sequencing of the mutators' own locks, futexes, signals, FUSE, USB and netlink: not modelled.
