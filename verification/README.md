# A verified model of the my_wine loading pipeline

my_wine loads PE32 and PE32+ images in user space. This project models the parts of it
where bytes, words and shared tables are changed in place, and proves what those changes
add up to:

- **Image construction and rebasing.** Sections and headers are copied out of the file,
  uninitialised sections are cleared, and the relocation walk then patches the image while
  it reads its own directory from the same bytes. The walk is compared with an independent
  reading of the directory, and moving an image twice is compared with moving it once.
- **Imports and code scanning.** Pass 1 rewrites the import address tables (IATs), which may
  be their own lookup tables. Pass 2 scans code for indirect jumps and tries three ways of
  patching their slots. From the tables and the registered modules' exports, the word each
  slot ends up with is derived end to end.
- **Exports and the built-in import table.** Binary searches against linear scans, lookup by
  name against lookup by ordinal, sorting against first-match lookup.
- **Module life cycle.** Recursive loading with rollback, the 16-slot registry, the three
  circular lists of the process environment block, and the compare-and-swap allocator of DLL
  bases under every interleaving.
- **PE32 heap and registry values.** Both are low-level storage that refines a plain map.

How machine things appear: an image is a `seq<byte>` or an `array<byte>` and an address
inside it an offset (RVA); words are naturals with the wrap-around written out; memory read
past the end of an image is an arbitrary function `beyond`; the kernel's choices, DllMain and
import resolution are arbitrary outcomes or parameters. Code that works step by step is a
method or a class proved against a function, and the theorems are about that function.

Files, in reading order: `Bytes`, `Pe`, `CStrings`, `Sorting` (shared notions);
`Relocations`, `Mapper`, `RipScan`; `ImportPass1`, `ImportPass2`, `ImportTable`, `Exports`;
`ModuleList`, `PebLdr`, `DllBases`, `LoadPlan`, `DllLoader`; `Linking`; `Heap32`; `Registry`.

## What turned out not to hold

Each of these is kept as the code has it, with the exact condition proved.

- Relocating twice is not relocating once for HIGH fixups: each move drops the low half of
  its delta. `Relocations.HighHalfDrifts` is a 12-byte image that shows it,
  `Relocations.RelocateTwice` and `Relocations.RelocateBack` give the condition. A 32-bit
  host also loses the carry of a 64-bit fixup.
- Concurrent loaders get distinct bases but not always disjoint windows, because only one page
  is reserved atomically. In every interleaving the windows are disjoint if and only if no base
  is reserved while a DLL of more than a page waits for its size to be added
  (`DllBases.WindowsApartExactly`); `DllBases.ConcurrentWindows` is a run of two loaders that
  overlap.
- A registry scanned by count loses modules after a removal that is not last in, first out
  (`ModuleList.EarlyRemovalHides`, `ModuleList.PackedAfterRemove`). A failed load whose
  dependencies stay loaded is such a removal.
- A DLL can be loaded twice. After such a removal the lookups miss the hidden module's name
  (`ModuleList.EarlyRemovalReloads`); in a registry with distinct names every module is found
  under its own name if and only if the slots are packed (`ModuleList.OnceExactly`). But a
  request may use another name: the path search adds ".dll" to a name without an extension, so
  with foo.dll loaded a request for "foo" loads it again (`DllLoader.ExtensionReloads`,
  `DllLoader.SearchKeeps`). In a packed registry with distinct names, a successful request leaves
  two modules of one name if and only if the lookup misses it and the file the search finds for
  it is registered already (`DllLoader.Loader.LoadLibrary`, and `DllLoader.Loader.Admit` for one
  registration).
- The two builds can bind one import differently: the 64-bit build looks a function up by name
  alone, so an entry of another DLL wins over the exports of the DLL asked for
  (`Linking.StubWins`). `Linking.BuildsAgree` says exactly when they agree.
- The test that a section's raw data lie in the file wraps on a 32-bit host and then accepts data
  outside it (`Mapper.WrappedAccepted`); `Mapper.AcceptedFits` gives the exact condition, and a
  64-bit host meets it always.
- Counting a null base, or counting off a free slot, breaks the count; every other registration
  and removal keeps it (`ModuleList.Registry.AddModule`, `ModuleList.Registry.RemoveModule`).
- The lookup that does not test the base can answer a free slot, for the empty name only
  (`ModuleList.SafeLookupAgrees`).
- An exported name whose biased ordinal needs more than 16 bits is not found by ordinal
  (`Exports.OrdinalLookup`).
- Setting the address of an import that has two table entries leaves the second one behind
  (`ImportTable.SetImportShared`).
- A DLL of more than 2^32-4096 bytes is charged one page, so the next base lies inside it
  (`DllBases.ChargeCovers`); smaller ones are always covered.
- Not every import graph loads: four files always do, a chain of five never does
  (`LoadPlan.ClosedLoads`, `LoadPlan.ChainFails`).
- A heap request in the last seven bytes of the 32-bit range gets a 4096-byte block
  (`Heap32.AllocatedFits`).
- A registry value with a name of 128 bytes or more can be set and never read back, and
  setting it twice takes two slots (`RegistryValues.SetThenFind`,
  `RegistryValues.LongNameDuplicates`); `RegistryValues.SetUniqueExactly` says which calls keep
  the keys unique.

Where the code and its documentation differ, the code is followed:

- Relocation type 4 is a full 32-bit add and type 5 is HIGHADJ (applied like HIGH), unlike the
  table in "The .reloc Section" of the Microsoft PE/COFF specification.
- Pass 2 of import resolution is described as patching thunk targets; it never changes a byte.
- FreeLibrary unmaps a module's image but not the page that holds its headers.
- The nameless list of the loader data is `InLoadOrderModuleList`, as its uses name it.

## Model

| member | source | states |
|---|---|---|
| Relocations.ApplyRelocations | src/loader/relocations.c:69-257 | The in-place block walk ends, touches only the image, and has the result and image of the walk function, for every image, header and base. |
| Relocations.ApplyEntries | src/loader/relocations.c:134-251 | One block's entries patched in order; a bad entry stops the walk with what was patched so far. |
| Relocations.Interpret | src/loader/relocations.c:138-249 | An entry patches if and only if its type number is one its image type patches (1 to 5 in PE32, 10 in PE32+) and it does not fail; it fails exactly when its address leaves the 32-bit range (in PE32 whatever the type, padding aside) or its word leaves the image; and which word, of which width and half, it asks for. |
| Relocations.EntryFixupsExactly | src/loader/relocations.c:134-251 | A block decodes if and only if none of its entries fails, and then lists a fixup if and only if one of its entries asks for it. |
| Relocations.FixupsExactly | src/loader/relocations.c:105-256 | The directory at index 5 decodes if and only if it lies in the image, every visited block ends inside it and no entry of a visited block fails; it then lists exactly what the entries of the visited blocks ask for. |
| Relocations.EntriesAreFixups | src/loader/relocations.c:134-251 | Patching while reading a block equals reading the block first and patching afterwards, when no target overlaps the block. |
| Relocations.BlocksAreFixups | src/loader/relocations.c:105-256 | The same for the whole chain of blocks, including a header that starts in the directory's last bytes and is read past its end. |
| Relocations.RelocateIsFixups | src/loader/relocations.c:69-257 | For every base, also null and with relocations stripped, and also for targets that overlap each other, relocation applies exactly the fixups an independent reading of the directory lists, in order, if no target lies in what the walk reads. |
| Relocations.ApplyAllEffect | src/loader/relocations.c:143-249 | With disjoint targets each word grows by its own amount modulo its width and no other byte changes. |
| Relocations.MovedUnique | src/loader/relocations.c:143-249 | That description of the effect determines the whole image. |
| Relocations.RelocateEffect | src/loader/relocations.c:69-257 | For separate targets, what relocation to any base does to every byte, and exactly when it fails: stripped relocations, a null base with a directory, or a directory that does not decode. |
| Relocations.FixupsStable | src/loader/relocations.c:105-135 | A relocated image still lists the same fixups, still separated, so it can be relocated again. |
| Relocations.EntryRelocated | src/loader/relocations.c:143-249 | After a successful move every entry of a patching type, at every index of every visited block, has added the difference of the bases to the word it points at: whole, high half or low half as its type number says, at its width. |
| Relocations.OthersUntouched | src/loader/relocations.c:69-257 | A byte that no entry of a visited block points at is as it was. |
| Relocations.AdditiveComposes | src/loader/relocations.c:143-249 | Two deltas add up on a fixup if and only if: always for 32-bit and LOW words, when the low halves do not carry for HIGH, when a 32-bit host does not overflow for 64-bit words. |
| Relocations.RelocateTwice | src/loader/relocations.c:69-257 | Relocating to one base and then to another equals relocating there directly, if and only if every fixup is additive for the two deltas. |
| Relocations.RelocateBack | src/loader/relocations.c:69-257 | Going back to the preferred base restores the image if and only if no HIGH fixup saw a delta that is not a multiple of 65536 and no 64-bit fixup was moved by a 32-bit host. |
| Relocations.HighHalfDrifts | src/loader/relocations.c:167-216 | A concrete image on which both laws fail. |
| Mapper.BaseFits | src/loader/image_mapper.c:152-190 | A PE32+ image gets the base asked for or its own; a PE32 image gets the base asked for if and only if it then ends at or below 4 GB, else 0x400000, where it fits unless it is larger than the rest of the range. |
| Mapper.ParseSections | src/pe_headers.c:120-154 | If the section table is accepted it lies in the file and every section has passed the raw-data test, whose sum wraps at the host's word. |
| Mapper.AcceptedFits | src/pe_headers.c:143-149 | An accepted section's raw data lie in the file if and only if the sum does not wrap, which on a 64-bit host it never does. |
| Mapper.WrappedAccepted | src/pe_headers.c:143-149 | A section that a 32-bit host accepts for a 512-byte file although its data lie outside. |
| Mapper.SectionsAccepted | src/pe_headers.c:120-154 | Exactly those files are accepted that start with MZ, hold a DOS header and have room for the 40-byte section headers at the 32-bit sum of their position, not negative as a C int, with sections that pass the raw-data test; the data lie in the file if and only if no sum wraps. |
| Mapper.FindOffset | src/pe_priv.h:213-237 | The section loop returns the file offset the RVA function gives, with the host's wrapping sum, the C int conversion and every early exit. |
| Mapper.ExtentCovers | src/pe_priv.h:213-237 | The extent of a section is the larger of its raw and its virtual size. |
| Mapper.CopyAllSections | src/loader/image_mapper.c:217-247 | All payload sections blitted in table order, or failure exactly when one leaves the image. |
| Mapper.ClearAllSections | src/loader/image_mapper.c:263-292 | Sections without payload cleared while the table is read out of the image being cleared. |
| Mapper.FillImage | src/loader/image_mapper.c:217-292 | The three steps together, started on zeroed memory, give the specified image or fail exactly when it has none. |
| Mapper.CopyFills | src/loader/image_mapper.c:217-247 | For disjoint sections, after n copies every byte of the first n sections is the file's and every other byte is still zero. |
| Mapper.ClearFills | src/loader/image_mapper.c:263-292 | Clearing reads each section as the file has it, because no cleared byte lies in the headers. |
| Mapper.ImageMirrorsFile | src/loader/image_mapper.c:217-292 | For disjoint sections above headers that hold the section table, loading succeeds; header and file-backed RVAs hold the file byte at their `rva_to_offset`, and every other byte is zero. |
| Mapper.SectionContents | src/loader/image_mapper.c:217-292 | In the fields of any section's header: with a raw pointer and without the uninitialised flag the image holds its raw data byte for byte and then zeros up to its virtual size; without a pointer or with the flag it is zero over its virtual size (its raw size when that is zero), and flagged raw data past it stay. |
| Mapper.MapImageAt | src/loader/image_mapper.c:217-336 | Copy, relocate and collect protections: the mapped bytes and protection ranges, or failure, as specified; a failure in any step fails the whole. |
| Mapper.MappedMirrorsFile | src/loader/image_mapper.c:61-346 | From file to relocated image: outside the relocation targets the file's bytes or zero, at each target the loaded word moved by the delta. With no target in the headers, mapping succeeds if and only if relocation does and every rounded protection range fits, and the protections are those of the file's own sections. |
| Mapper.ProtectionsOf | src/loader/image_mapper.c:303-336 | The protection loop, on a table that reads as these sections, succeeds exactly when all rounded ranges fit and requests the wanted protections in table order. |
| Mapper.ProtectionAsked | src/loader/image_mapper.c:303-336 | The three bits asked for are the section's own, on the least whole number of pages that covers its virtual size (its raw size when that is zero); a 32-bit host asks for nothing when rounding wraps. |
| Pe.RangeValid | src/pe_priv.h:27-33 | The overflow-free check accepts exactly the ranges that end inside the image. |
| Pe.HeaderDecodes | include/pe.h:196-210 | Reading the 40 bytes of a section header gives back the section they were written from, whatever the ignored fields hold. |
| Pe.CodeSectionUnique | src/pe_headers.c:194-226 | At most one section is the code section: name rank beats table order, flags come last. |
| Pe.CodeRanks | src/pe_headers.c:202-226 | The ranks are .text, BEGTEXT, TEXT and CODE in any letter case with a terminator after them, then the code and execute bits together. |
| Pe.FindCodeSection | src/pe_headers.c:194-226 | The search returns that section, and nothing exactly when no section qualifies under any rank. |
| RipScan.CollectTarget | src/pe_rip_scan.c:114-128 | One more target: kept unless already present or past the limit, and nothing outside the buffer is written. |
| RipScan.ScanRipRelativeJumps | src/pe_rip_scan.c:130-152 | The scan, deduplication and in-place sort fill the buffer with the specified targets, whatever the code section or its absence. |
| RipScan.CollectIsPrefix | src/pe_rip_scan.c:114-128 | Dropping repeats on the fly and stopping at the limit keeps a prefix of the distinct targets in scan order. |
| RipScan.SlotExactly | src/pe_rip_scan.c:58-100 | A scanned offset gives a slot if and only if its bytes are ff 25 (in PE32 also ff 15) followed by the slot's address at the mapped base, or in PE32+ by its signed 32-bit distance from the next instruction, and the slot lies in the image. |
| RipScan.ScannedExactly | src/pe_rip_scan.c:38-57 | A section is scanned if and only if the smaller of its sizes (its raw size when the virtual one is zero) is at least six bytes and ends inside the image. |
| RipScan.TargetsSpec | src/pe_rip_scan.c:25-152 | The output is strictly increasing and is, as a set, the first `max` distinct slots in scan order, all of them if they fit; a slot is one of them if and only if some offset of the section is a jump through it. |
| RipScan.FindRipRelativeJumpTo | src/pe_rip_scan.c:166-221 | The least matching offset whose slot holds the value, and none exactly when there is none. |
| RipScan.JumpsToExactly | src/pe_rip_scan.c:166-200 | A jump matches a value if and only if the slot it goes through holds the value, cut to 32 bits in PE32. |
| RipScan.ScanBaseIndependent | src/pe_rip_scan.c:58-100 | A relocated PE32 image scanned at its mapped base yields the same target array as the original at its preferred base, when each operand is a relocated word of its own and the same offsets match. |
| RipScan.SlotsMove | src/pe_rip_scan.c:58-100 | The same for the raw list of slots, repeats and order included. |
| CStrings.ImageCStrValid | src/loader/import_resolve.c:29-42 | The scan accepts exactly the RVAs with a terminator between them and the image's end. |
| CStrings.CStrValidMeans | src/loader/export_table.c:20-35 | A string is valid if and only if some later byte of the image is zero. |
| CStrings.StrCmp | include/syscall_safe_utils.h:37-46 | The loop returns the comparison value. |
| CStrings.CompareOrders | include/syscall_safe_utils.h:37-46 | Its sign is dictionary order on unsigned bytes in both directions, and zero means equal strings. |
| CStrings.CompareTransitive | include/syscall_safe_utils.h:37-46 | The order the searches and the sort rest on is transitive, strictly if one step is strict. |
| CStrings.StrCaseCmp | include/syscall_safe_utils.h:48-60 | Comparison of the ASCII-lowered strings; zero exactly for the same name up to case. |
| CStrings.SameNameExactly | include/syscall_safe_utils.h:48-60 | Two names match if and only if they are equally long and each pair of bytes is equal or one ASCII letter in two cases. |
| CStrings.Truncated | include/syscall_safe_utils.h:112-123 | A copy into a fixed buffer is a prefix, the whole string if it fits, else as much as leaves room for the terminator. |
| ImportPass1.ResolveImportPass1 | src/loader/import_resolve.c:59-230 | The nested loops end and have the result and image of the pass function, including tables that overlap anything. |
| ImportPass1.ResolveThunks | src/loader/import_resolve.c:103-217 | One descriptor's thunks in place, its FirstThunk consulted again at every thunk. |
| ImportPass1.ThunksEffect | src/loader/import_resolve.c:103-217 | Under the layout assumption one descriptor succeeds exactly when the rest of its table is usable, and then all its slots are done; otherwise exactly those before its first bad thunk. |
| ImportPass1.DescriptorsEffect | src/loader/import_resolve.c:59-230 | The same from any descriptor on: the walk has done exactly the slots before the place where it stopped. |
| ImportPass1.StopsAt | src/loader/import_resolve.c:59-230 | That place: all tables before it are well formed and the one at it, if any, is not. |
| ImportPass1.Pass1Effect | src/loader/import_resolve.c:59-230 | With IATs disjoint from each other, descriptors, names and foreign lookup tables (or equal to their own), pass 1 succeeds if and only if the tables are well formed; then each slot before the first zero thunk holds the resolver's answer or its old value, and every other byte is unchanged. On failure the same holds of exactly the slots before the place where it stopped. |
| ImportPass1.SlotWritten | src/loader/import_resolve.c:59-230 | From the bytes of the directory at index 1: after a successful pass, slot j of descriptor d (address table at offset 16, lookup table at offset 0 or the address table itself, name at offset 12 of its 20 bytes) holds the answer for that DLL and the name two bytes after the thunk's RVA, or the low 16 bits of an ordinal thunk, cut to the slot, or its old word. |
| ImportPass1.ThunkValidExactly | src/loader/import_resolve.c:123-151 | A thunk is usable if and only if it has the ordinal flag of its image type, or a byte from two after its RVA on is zero inside the image. |
| ImportPass2.BuildFlatImportArray | src/loader/import_flat.c:25-137 | The list of lookup value, slot content and slot, cut at 256 entries, with the thunk read before its bounds check. |
| ImportPass2.FlatImportsCurrent | src/loader/import_flat.c:25-137 | Every listed value is what its slot holds in the image at that moment. |
| ImportPass2.ListableExactly | src/loader/import_flat.c:76-127 | Every thunk pass 1 accepts is listed; a name thunk is listed exactly when a hint and one byte of name fit in the image. |
| ImportPass2.StrategyResolvedOverlap | src/loader/import_flat.c:144-154 | A hit exactly when some entry lists this slot with its present value. |
| ImportPass2.StrategyIltValueMatch | src/loader/import_flat.c:162-180 | The first matching entry's value is written, and a miss writes nothing and means there is no match. |
| ImportPass2.StrategyIltOffsetMatch | src/loader/import_flat.c:188-207 | The same for a match by slot alone. |
| ImportPass2.PatchThunkTargets | src/loader/import_resolve.c:249-281 | All targets in turn through the three strategies, with the number matched. |
| ImportPass2.PatchSlotNothing | src/loader/import_resolve.c:268-275 | On a current list no strategy that writes is ever reached for a listed slot, so the image stays as it is; the slots in the image that match are exactly the listed ones. |
| ImportPass2.Pass2Nothing | src/loader/import_resolve.c:286-312 | Pass 2 changes no byte, for every image and wherever the limits cut. |
| ImportPass2.ResolveImportPass2 | src/loader/import_resolve.c:286-312 | Scanning, listing and patching in place is the pass-2 function. |
| ImportPass2.ResolveImports | src/loader/import_resolve.c:347-353 | Running both passes gives exactly the result and image of pass 1. |
| Exports.Module.ParseExportTable | src/loader/export_table.c:37-126 | The cache after parsing: clamped counts, arrays inside the image, emptied on a bad array and left alone without a directory. |
| Exports.ParseExactly | src/loader/export_table.c:37-126 | Parsing succeeds if and only if the header can be read and the arrays, cut to the limits, lie in the image; the cache then holds the header fields and the arrays word for word; a bad array empties it and a missing header leaves it alone. |
| Exports.Module.LookupExport | src/loader/export_table.c:147-188 | Every hit is a cached name that reads as asked; on valid, strictly increasing names the binary search answers what a linear scan answers, found or not: an RVA if and only if a name that reads as asked has a function number in the table whose entry is that RVA, inside the image and not in the export directory (when that ends below 4 GB). |
| Exports.OrdinalExactly | src/loader/export_table.c:190-208 | An ordinal finds an RVA if and only if some function number, counted from the base in 32 bits, is that ordinal and its entry is that RVA, inside the image and not in the export directory. |
| Exports.OrdinalLookup | src/loader/export_table.c:190-208 | Looking up the 16-bit biased ordinal of a name gives the named function if and only if the sum fits or there is no function to find; otherwise it finds nothing. |
| Exports.NameAndOrdinalAgree | src/loader/export_table.c:147-208 | Lookup by name and by ordinal agree for every name of an ordered table whose biased ordinal fits. |
| ImportTable.InitImportTable | src/loader/import_table.c:815-834 | The in-place sort of the table is the insertion sort of its entries by name, and so a sorted permutation, as the 64-bit search needs. |
| Sorting.InsertionSort | src/loader/import_table.c:822-830 | The two nested loops sort the first n elements in place and leave the rest. |
| Sorting.SortSorts | src/loader/import_table.c:822-830 | The result is sorted and a permutation, for every total preorder. |
| Sorting.SortStable | src/loader/import_table.c:822-830 | Elements that compare equal keep their order. |
| ImportTable.ScanTable | src/loader/import_lookup.c:97-108 | The 32-bit scan returns the first entry for the DLL (any case) and name. |
| ImportTable.SortKeepsFirstMatch | src/loader/import_table.c:815-834 | Sorting does not change which entry that is, for any DLL and name. |
| ImportTable.SearchTable | src/loader/import_lookup.c:110-124 | The 64-bit search returns an entry of the name, and on a sorted table misses only names that are absent. |
| ImportTable.SearchAgreesWithScan | src/loader/import_lookup.c:92-128 | If equal names share an address, any entry of the name in any permutation has the address of every 32-bit hit. |
| ImportTable.SearchFindsScanned | src/loader/import_lookup.c:92-128 | A name the scan finds is present for the search. |
| Linking.ModuleExport | src/loader/import_lookup.c:129-138 | The registry lookup and the binary search together give base plus RVA of what a scan of the first module of that name exports, or null. |
| Linking.ResolveLoaderImport32 | src/loader/import_lookup.c:92-143 | The first table match's address if it has one, else what the registered module of that name exports. |
| Linking.ResolveLoaderImport64 | src/loader/import_lookup.c:92-143 | On a sorted table with shared addresses, the address of the entry of that name under any DLL if it has one, else what the registered module exports. |
| Linking.BuildsAgree | src/loader/import_lookup.c:92-143 | On a table with shared addresses the two builds give the same address if and only if the 32-bit build finds an entry, no entry has the name, or the entry is empty or holds the exported address. |
| Linking.SlotHoldsAddress | src/loader/import_resolve.c:59-230 | For either build, after a successful pass 1 the slot of every thunk, by name or by ordinal, holds the address that build's two tiers give for what it asks, or its old value if they give none. |
| Linking.ImportBound | src/loader/import_resolve.c:59-230 | An import that the build's own table lookup leaves open and a registered module exports is bound to that module's base plus the exported RVA. |
| Linking.StubWins | src/loader/import_lookup.c:109-128 | In the 64-bit build an import whose name the table has, under whatever DLL, is bound to the table's address even if the module asked for exports it. |
| ImportTable.SetImport | src/loader/import_table.c:769-778 | The first entry of the name gets the address, every other entry is unchanged. |
| ImportTable.SetImportShared | src/loader/import_table.c:769-778 | Equal names still share an address afterwards if and only if the name occurs once or the address is the old one. |
| ModuleList.Registry.constructor | src/loader/module_list.c:64-68 | An empty registry satisfies the invariant: the count is the number of used slots and free slots are zero. |
| ModuleList.Registry.AddModule | src/loader/module_list.c:70-88 | The first free slot is taken, or nothing changes when there is none; the invariant holds after if and only if no null base was counted. |
| ModuleList.Registry.RemoveModule | src/loader/module_list.c:139-149 | A slot below the count is cleared and counted off; one beyond it is left alone; the invariant holds after if and only if no free slot was counted off. |
| ModuleList.Registry.FindModuleByName | src/loader/module_list.c:90-100 | The first used slot below the count with the name, up to case. |
| ModuleList.Registry.FindModuleByNameSafe | src/loader/module_list.c:104-121 | The first slot below the count with the name, used or not. |
| ModuleList.Registry.FindModuleByAddr | src/loader/module_list.c:123-137 | The first used slot below the count whose range holds the address. |
| ModuleList.AddressFinds | src/loader/module_list.c:123-137 | An address is found if and only if it lies from the base of a module below the count up to, not including, its base plus size; modules that do not overlap are each found by exactly their own addresses. |
| ModuleList.SafeLookupAgrees | src/loader/module_list.c:90-121 | In every consistent registry the two name lookups agree on all non-empty names, and on the empty name exactly when no free slot comes first. |
| ModuleList.ReachableIffPacked | src/loader/module_list.c:90-149 | Every module is within reach of the scans if and only if the used slots are a prefix. |
| ModuleList.PackedAfterRemove | src/loader/module_list.c:139-149 | Removing one module keeps the slots a prefix if and only if it was the last. |
| ModuleList.PackedAfterAdd | src/loader/module_list.c:70-88 | Registering in a packed registry takes the slot after the last one, fails only when all 16 are used, and keeps the slots a prefix. |
| ModuleList.PackedLookupComplete | src/loader/module_list.c:90-100 | In a packed registry every module's name is found. |
| ModuleList.LifoRunPacked | src/loader/module_list.c:64-149 | After every run with last-in-first-out removals the used slots are exactly a prefix, in registration order, and the count is their number. |
| ModuleList.EarlyRemovalHides | src/loader/module_list.c:90-149 | Any other removal from a packed registry puts the last module out of reach of all three lookups and of its own removal. |
| ModuleList.EarlyRemovalReloads | src/loader/module_list.c:90-149 | With distinct names both name lookups then miss that module's own name, so a request for it goes to the path search. |
| ModuleList.MissedExactly | src/loader/module_list.c:90-100 | A name is missed exactly when all modules that have it lie at or beyond the count. |
| ModuleList.OnceExactly | src/loader/module_list.c:90-149 | With distinct names, every module is found under its own name if and only if the slots are packed. |
| PebLdr.Ring.InsertTail | src/loader/peb_ldr.c:32-40 | Relinking four pointers keeps the list circular and appends the node. |
| PebLdr.Ring.Remove | src/loader/peb_ldr.c:43-49 | Unlinking keeps the list circular, takes out that node alone and keeps the order. |
| PebLdr.InsertKeepsCircular | src/loader/peb_ldr.c:32-40 | The pointer writes of an insertion, in their order, preserve the doubly linked shape, also for the empty list. |
| PebLdr.RemoveKeepsCircular | src/loader/peb_ldr.c:43-49 | The pointer writes of a removal preserve it wherever the node stands. |
| PebLdr.LdrData.AddModule | src/loader/peb_ldr.c:77-102 | All three lists stay well formed and equal, with the module at the tail, or unchanged if it was linked. |
| PebLdr.LdrData.RemoveModule | src/loader/peb_ldr.c:104-122 | All three lists lose that module and keep the rest in order; nothing changes if it was not linked. |
| PebLdr.LdrData.FindByAddr | src/loader/peb_ldr.c:124-147 | The cursor loop ends and returns the first linked module in link order whose range holds the address. |
| PebLdr.Perform | src/loader/peb_ldr.c:77-122 | After any run of links and unlinks the three lists are well formed and hold exactly the replayed order. |
| PebLdr.UnlinkKeepsOrder | src/loader/peb_ldr.c:77-122 | Linking twice is linking once, and unlinking preserves which of two other modules comes first. |
| PebLdr.LookupsAgree | src/loader/peb_ldr.c:124-147 | With disjoint ranges and a packed, fully linked registry, the list walk and the slot scan name the same module for every address. |
| DllBases.RunConserves | src/loader/dll_loader.c:109-140 | In every interleaving of any number of loaders each pending base has exactly one holder, and the cursor has moved by exactly what was charged. |
| DllBases.QuiescentCursor | src/loader/dll_loader.c:109-140 | At quiescence the cursor has advanced by the sum of the least page multiples of the sizes, one page per failed map (and per size whose multiple is not a 32-bit number). |
| DllBases.ChargeCovers | src/loader/dll_loader.c:135-140 | The charge is the least page multiple at or above the size, and covers the image, if and only if the size is at most 2^32-4096; a larger size is charged one page. |
| DllBases.RetryWins | src/loader/dll_loader.c:109-119 | A loader whose swap failed has changed nothing, and its next uninterrupted round reserves the next base. |
| DllBases.BasesDistinct | src/loader/dll_loader.c:109-119 | All reserved bases are page-aligned and at least a page apart, in every interleaving within the address range. |
| DllBases.WindowsApartExactly | src/loader/dll_loader.c:109-140 | In every interleaving within the address range, all windows are pairwise disjoint if and only if no base was reserved while a DLL whose final charge exceeds a page was waiting for its size to be added. The images themselves are then disjoint when no size is above 2^32-4096; if all DLLs were mapped they are disjoint only then. |
| DllBases.WindowsDisjoint | src/loader/dll_loader.c:109-140 | So they are if no base is reserved while any DLL is waiting. |
| DllBases.OneLoaderApart | src/loader/dll_loader.c:109-140 | And so they are in every run of one loader, whatever it does; its images too, when no size is above 2^32-4096. |
| DllBases.ReserveNext | src/loader/dll_loader.c:109-140 | One read, swap and finish of a single loader adds one window that starts at the rounded cursor. |
| DllBases.ReservedExtends | src/loader/dll_loader.c:109-140 | Between two such moments the cursor has moved by exactly the charges of the windows added. |
| DllBases.ConcurrentWindows | src/loader/dll_loader.c:109-140 | A run of two loaders that both reserve before the first adds its size: they overlap if and only if the first DLL is longer than a page (and its rounded size does not wrap). |
| DllLoader.Loader.Start | src/loader/teb_peb.c:227-266 | The main program is mapped and, when there are loader lists, registered as main.exe in slot 0 and linked alone, without a header page; the globals keep its values. |
| DllLoader.Loader.Reserve | src/loader/dll_loader.c:100-140 | One window is reserved from the rounded cursor, with one page or the rounded size of the mapped image; base, bitness and path globals are as at entry on every path. |
| DllLoader.Loader.Prepare | src/loader/dll_loader.c:100-183 | The same with the header page and the type check; a failure leaves no mapping behind; the cursor has moved by the window's charge and no two windows overlap. |
| DllLoader.Loader.Admit | src/loader/dll_loader.c:100-212 | Up to the imports, either nothing has changed or one new module is registered in the first free slot and linked last; if nothing is refused, the latter if and only if there is a file with an image of the main program's type and a free slot. A packed registry stays packed, and distinct names stay distinct if and only if no module has the new one's name. |
| DllLoader.Loader.Unload | src/loader/dll_loader.c:216-227 | Rollback takes the module out of the lists and the registry and removes both of its mappings, and nothing else. |
| DllLoader.Loader.LoadDll | src/loader/dll_loader.c:93-250 | For every dependency graph loading terminates; earlier modules stay registered, untouched and linked in order; the three globals are as at entry; on failure the module it created is in no slot, list or mapping; on success all its imports are met; mappings are exactly those of the registered modules throughout; the cursor has moved by exactly the windows reserved, which are disjoint. Unless the kernel, DllMain or import resolution refuse something, it succeeds if and only if the plan does, and the registered names are then the planned ones, slot by slot. From a packed registry, with files whose import names the search keeps, every module added has a name of its own if and only if the load fails or its own name was new. |
| DllLoader.Loader.Complete | src/loader/dll_loader.c:210-249 | After registration: either the imports are met and DllMain agreed, or the module is out of slot, lists and mappings, and older modules are as they were. |
| DllLoader.Loader.ResolveModuleImports | src/loader/import_resolve.c:358-442 | The dependency loop keeps all of that, fails from depth 8 on, and succeeds only if every descriptor is terminated and built in, loaded or now registered; if nothing is refused, outcome and names are the planned ones. |
| LoadPlan.ClosedLoads | src/loader/import_resolve.c:358-442 | In a packed registry with room for them, up to four files that import only each other and built-in libraries always load, whatever cycles their imports form, and take no more slots than there are files. |
| LoadPlan.ChainFails | src/loader/import_resolve.c:358-442 | A chain of five files, each first importing the next, never loads: depth grows by two per file and the limit is 8. |
| LoadPlan.FoundIsKnown | src/loader/module_list.c:90-100 | The registry lookup hits exactly the names the plan takes to be registered. |
| LoadPlan.SuppliedList | src/loader/import_resolve.c:388-427 | Imports that are all registered or built in load nothing. |
| DllLoader.Loader.LoadDependencies | src/loader/import_resolve.c:388-427 | The descriptor loop: every dependency is found, built in or loaded, or it stops at the first that is not, and what was there stays. A list whose dependencies are all found or built in succeeds and changes nothing; if nothing is refused, outcome and names are the planned ones. |
| DllLoader.Loader.LoadDependency | src/loader/import_resolve.c:398-421 | A name the lookup finds or that is built in succeeds and leaves slots, count, link order, mappings and reservations as they were; a failure means the lookup missed, the name is not built in, and the search found no file, something was refused, or the plan for that file fails. |
| DllLoader.Loader.LoadLibrary | src/msvcrt/kernel32_module.c:137-181 | A name the safe lookup finds gains one reference and nothing else changes; a built-in gives its handle; otherwise a new module supplies the name or older modules are as before, and if nothing is refused outcome and names are those planned for the file the search finds. From a packed registry with distinct names, and with files whose import names the search keeps, a successful request leaves two modules of one name if and only if the lookup misses it and the file found for it is registered already. |
| DllLoader.SearchKeeps | src/loader/dll_path.c:185-233 | Of the files the search tries for a short name without separators, the one found has that name, up to case, exactly when no extension was added; so names with an extension are kept. |
| DllLoader.ExtensionReloads | src/loader/dll_path.c:203-216 | A packed registry with distinct names that holds foo.dll: both lookups miss "foo", and registering the file found for it gives two modules of one name. |
| DllLoader.AddsLoaded | src/loader/dll_loader.c:186-249 | A load that succeeds adds only names nobody else has if and only if its own name was new. |
| DllLoader.OnceAdds | src/loader/module_list.c:70-88 | Distinct names stay distinct if and only if every name added is nobody else's. |
| DllLoader.LoadingReachable | src/loader/dll_loader.c:190-227 | While a module is loading its index is below the count, so name lookup and its own rollback reach it. |
| DllLoader.RegisterAccounted | src/loader/dll_loader.c:146-205 | Registering a freshly mapped image keeps what is mapped equal to what the modules own. |
| DllLoader.UnregisterAccounted | src/loader/dll_loader.c:216-227 | So does unregistering it and unmapping both regions. |
| DllLoader.Loader.FreeLibrary | src/msvcrt/kernel32_module.c:299-326 | The last reference unlinks, unregisters and unmaps the image, and leaves the header page mapped without an owner; earlier references only count down; unknown addresses and built-in handles change nothing. A packed registry stays packed if and only if the last module went. |
| DllLoader.FreeAccounted | src/msvcrt/kernel32_module.c:316-323 | After that the mappings are the modules' own plus the orphaned header page. |
| Heap32.AllocatedFits | src/heap/pe32_mmap_heap_backend.c:25-40 | A block is the least multiple of 8 that holds its request, and at least 4096, if and only if the size is at most 2^32-8; a larger request gets the minimal block. |
| Heap32.Backend.Malloc | src/heap/pe32_mmap_heap_backend.c:25-40 | The heap gains one zeroed block of the rounded size at a new address; it is unchanged and the answer null only for a size of zero or when the kernel has no room. Regions stay disjoint and cover exactly the mapped bytes, each header holding its capacity. |
| Heap32.Backend.Free | src/heap/pe32_mmap_heap_backend.c:45-51 | The block named by the header goes, region and all, and every other block keeps its bytes. |
| Heap32.Backend.Realloc | src/heap/pe32_mmap_heap_backend.c:56-71 | In place up to the capacity; otherwise a new block that begins with all the old bytes, and the old one is gone; null only for a size of zero, which frees, or when the kernel has no room, and then nothing changes. |
| Heap32.Backend.Calloc | src/heap/pe32_mmap_heap_backend.c:76-83 | A zeroed block; null and no change only for a product that overflows or is zero, or when the kernel has no room. |
| Heap32.ProductOverflow | src/heap/pe32_mmap_heap_backend.c:78-79 | The division test catches exactly the products of 2^32 and more. |
| Heap32.Backend.UsableSize | src/heap/pe32_mmap_heap_backend.c:88-93 | The header, read from memory, is the block's length. |
| Heap32.NewBlock | src/heap/pe32_mmap_heap_backend.c:32-39 | Mapping vacant memory and writing a header adds one block of zeros to the abstract heap. |
| Heap32.FreeBlock | src/heap/pe32_mmap_heap_backend.c:48-50 | Unmapping a block's region removes that block from the abstract heap and nothing else. |
| Heap32.WritePayload | src/heap/pe32_mmap_heap_backend.c:66-71 | A write inside one payload changes that block alone and no header. |
| Heap32.WineHeap.HandleFind | src/heap/wine_heap.c:36-45 | The table scan finds a handle if and only if it is there. |
| Heap32.WineHeap.HeapCreate | src/heap/wine_heap.c:71-104 | A new handle becomes live, or none does, which means that the table is full or the kernel refused; other handles are unaffected. |
| Heap32.WineHeap.HeapAlloc | src/heap/wine_heap.c:110-133 | A new zeroed block; null and no change only for a dead handle, zero bytes, or when the kernel has no room. |
| Heap32.WineHeap.HeapFree | src/heap/wine_heap.c:139-162 | Succeeds exactly for live handles, and then exactly that block is gone. |
| Heap32.WineHeap.HeapReAlloc | src/heap/wine_heap.c:168-206 | All bytes of the old capacity are kept and the bytes from there to the new size are zero; the block moves only to grow; null only for a dead handle, a size of zero or when the kernel has no room, and then nothing is lost except by a size of zero. |
| Heap32.WineHeap.HeapDestroy | src/heap/wine_heap.c:212-235 | Exactly that handle dies, and the process heap is cleared if it was the one. |
| Heap32.WineHeap.HeapSize | src/heap/wine_heap.c:251-262 | The capacity for a live handle and a block, else all ones. |
| RegistryValues.JoinPath | src/msvcrt/advapi32_registry.c:42-64 | The two copy loops build prefix, backslash and subkey, cut at 255 bytes, with no backslash for an empty subkey. |
| RegistryValues.JoinNested | src/msvcrt/advapi32_registry.c:42-64 | Opening a subkey of a subkey names the same key as opening the joined subkey, cuts included. |
| RegistryValues.Registry.FindValue | src/msvcrt/advapi32_registry.c:66-77 | The first used slot with the path and name; a null name is the empty one. |
| RegistryValues.Registry.EnsureValue | src/msvcrt/advapi32_registry.c:79-96 | The key's slot, or a claimed and zeroed free one, or no change when all are taken. |
| RegistryValues.Registry.SetValueEx | src/msvcrt/advapi32_registry.c:164-185 | The slots after a set, with every error code; a missing key changes nothing. |
| RegistryValues.Registry.QueryValueEx | src/msvcrt/advapi32_registry.c:133-162 | With unique keys, the answer of the abstract map: not found, size only, too small or the bytes; over-long names are never found. |
| RegistryValues.Registry.DeleteKeyA | src/msvcrt/advapi32_registry.c:187-202 | Exactly the used slots with the joined path are zeroed. |
| RegistryValues.SetRefines | src/msvcrt/advapi32_registry.c:79-185 | For names that fit, a set is one update of a map of at most 64 values: it fails exactly when the key is absent and the map full, and keys stay unique. |
| RegistryValues.DeleteRefines | src/msvcrt/advapi32_registry.c:187-202 | A delete removes from the map exactly the values with that path. |
| RegistryValues.RunRefines | src/msvcrt/advapi32_registry.c:66-202 | After any run of sets and deletes with names that fit, no two used slots share a key and the slots stand for the map the same calls build, of at most 64 values. |
| RegistryValues.SetThenQuery | src/msvcrt/advapi32_registry.c:133-185 | A set value reads back with its type (a string when none is given) and first 512 bytes, and every other key answers as before; a 65th key gets error 8 and changes nothing. |
| RegistryValues.QueryCodes | src/msvcrt/advapi32_registry.c:133-162 | Error 2 for a missing value, the size with error 234 when there is no place or not enough room for the data, and the data exactly when there is. |
| RegistryValues.SetThenFind | src/msvcrt/advapi32_registry.c:66-96 | A value that was set is found under its name if and only if the name is shorter than 128 bytes. |
| RegistryValues.SetUniqueExactly | src/msvcrt/advapi32_registry.c:79-185 | One set keeps the keys unique if and only if the name fits its field, there is no room, or no slot has the key as the field cuts it. |
| RegistryValues.LongNameDuplicates | src/msvcrt/advapi32_registry.c:79-96 | Setting an over-long name twice takes two slots with one key. |

## Left out

- Relocations.RelocateEffect: assumes disjoint targets; overlapping ones are covered by Relocations.RelocateIsFixups as a sequence of additions.
- Relocations.RelocateIsFixups: assumes no target lies in the directory bytes the walk reads; a walk that rewrites its own directory is modelled by Relocations.ApplyRelocations and gets no other form.
- RipScan.ScanBaseIndependent: PE32 only; PE32+ operands are relative to the instruction and do not mention the base.
- ImportPass1.Pass1Effect: the resolver is fixed during the pass, and tables that overlap otherwise than stated are covered by ImportPass1.ResolveImportPass1 only.
- ImportPass1.ResolveThunks: a DLL name whose terminator is overwritten by an earlier slot is read up to the image's end.
- Mapper.MapImageAt: header parsing is a parameter (the decoded header fields), and so is the address the kernel grants; a refused mprotect is not modelled.
- Exports.Module.LookupExport: addresses are RVAs; the pointer arithmetic on the base and the "forwarder not supported" message are not modelled.
- ModuleList.Registry.FindModuleByAddr: a range that wraps past the top of the address space and a module without headers are not modelled; the size is the one at registration, also for the main program, whose stored headers no longer exist when the source reads them.
- PebLdr.LookupsAgree: likewise compares with the sizes at registration.
- PebLdr.LdrData.AddModule: the refusal without a list head is in `DllLoader`; a null module, base or headers is never passed.
- Linking.ResolveLoaderImport64: says nothing for a table that is not sorted or whose equal names have different addresses, where the entry the search lands on is an accident.
- DllLoader.Loader.LoadDll: the bytes of an image, the granted addresses, pass 1 and 2, and DllMain are arbitrary outcomes that leave the loader's state alone, each refusal being counted; image_size, which the mapper also overwrites, is not restored by the code and not part of the frame; the reservation is that of one loader of `DllBases`. The clause on names is about files whose imports name DLLs as the search finds them.
- DllLoader.SearchKeeps: directories, file existence and names with separators are parameters of the search.
- DllLoader.Loader.Start: requires an empty registry, as at process start; a second registration of the main program is not modelled. The source stores the address of a stack variable as the main program's headers (src/loader/teb_peb.c:247-261); the model keeps the size read from them at registration.
- DllLoader.Loader.FreeLibrary: the detach call is left out; while modules are loading, a call that would remove one below them is excluded, because their own rollback would then miss them.
- DllBases.BasesDistinct: assumes the charges stay inside the address range; a wrapped cursor reuses addresses.
- Heap32.Backend.Realloc: requires a size of at most 2^32-8 unless the old block is minimal, because the copy would otherwise leave the new block.
- Heap32.Backend.Calloc: requires a product that overflows or is at most 2^32-8, because the clearing would otherwise leave the block.
- Heap32.WineHeap.HeapAlloc: with the zero flag requires at most 2^32-8 bytes, for the same reason; the mutex does not exist in the 32-bit build.
- Heap32.WineHeap.HeapReAlloc: the same bound, unless the old block is minimal and the zero flag is off.
- Heap32.WineHeap.HeapCreate: the page that holds the handle structure is not part of the modelled memory.
- RegistryValues.Registry.SetValueEx: the handle manager is a parameter (the key's path, or none); key handles, enumeration and the user name call would only add easy members.
- Crash and signal handlers, segment base switching, inline assembly and the guest stack handoff are hardware and kernel effects.
- The contents of the import and ordinal tables are data; any table is covered.
- C runtime detection, reference-pointer patching, entry-stub decoding, COFF symbols and the DLL path search are heuristics or easy walks.
- Graphics, sound, window and sample code, the musl heap backend, code generation scripts and debug output.
