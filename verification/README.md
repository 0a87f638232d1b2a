# Models of GNAT-LLVM's run-time and alias-analysis algorithms

Dafny models of the deterministic algorithms of the GNAT-LLVM repository, and proofs about them. Each file is a module.

**Page tables** (`Bits`, `PageTree`, `Descriptors`, `Regions`, `RegionMap`, `Build`, `Tcr`, `Start`, `Image`,
`Hardware`, `Generate`, `Exact`, `Mmu`, `Memmap`, `PhysicalSize`, `Agreement`, `Permissions`, `Acceptance`, `Failures`).
`memmap.py` cuts memory regions into 1 GB, 2 MB and 4 KB leaves, inserts them into AArch64 translation tables, drops
empty top levels and prints the tables. They are modelled twice: as linked objects that methods change in place (`Mmu`),
and as trees on which the properties are proved. `Hardware` is a reference page walk over the printed words, with the
positions of Arm DDI 0487, section D8.3; `Agreement.HardwareSeesRegions` connects the two ends, `Acceptance` and
`Failures` say which regions lead to tables and which to what error, and `PhysicalSize` that the emitted PS field is the
least. `Permissions` reads the attribute bits as hardware does.

**Type-based alias analysis** (`UcGroups`, `UcValidity`, `Tags`, `TypeTags`, `TagRuns`, `TagTable`, `AccessTags`).
`gnatllvm-aliasing.adb` groups types that unchecked conversions between access types link, makes a forest of tags for each
type, searches common ancestors and descends into struct tags. Types are opaque numbers with functions for what the front
end says about them; a metadata node is its content, since LLVM merges equal nodes.

**Scenarios** (`Rules`, `SourceTrees`, `Profiles`). Directory rules over finite-valued variables are compiled to a decision
tree while two dictionaries are changed and restored; the installer interprets the tree; another loop closes a
configuration under the requirements of the sources.

**LEB128** (`Leb128`): `unwind-pe.h` reads the numbers of DWARF version 5, section 7.6, into 64-bit words.

**Binding generator** (`Wrapping`, `Edits`): signatures are wrapped until no transformer applies, and positional edits are
applied to a file from its end.

`dafny verify dfyconfig.toml` checks everything.

## Where the code does not do what one expects

- The last block of a region can run past its end: the size test looks at the whole size, not at what remains.
  `Build.CoverageExactly` says exactly when; the region map used everywhere includes the overrun.
- 16 KB and 64 KB granules are accepted and never usable (`Memmap.OnlyFourKilobytePages`).
- In stage 2 with nothing mapped at or above 2 MB the start level field is -1 and the register value negative
  (`Tcr.NegativeTcr`, `Memmap.RegisterUsableExactly`); `generate` raises an exception in the cases that
  `Acceptance.ProgramSucceedsExactly` excludes. No mode at all is such a case unless a region ends above 2^39.
- For el1 the value has no physical size: `set_tcr` writes it at bit 16, where TCR_EL2 and VTCR_EL2 have PS, but TCR_EL1
  has T1SZ and its own IPS at bit 32 (`Tcr.El1Fields`). Hardware that took the value as it is would fault on every
  physical address from 2^32 on; `Agreement.HardwareSeesRegions` has that condition. Of the boards in the repository, the
  one that loads the value runs at EL2 (rpi3-mc/start-ram.S:132-133); those at EL1 write the register themselves
  (morello/start.S:507-536). No mode at all counts as el1, as in `insert`.
- At EL1 the user part of an access string does not keep user code from executing: `rwx---` and `r-x---` leave UXN clear
  (`Permissions.UserAsSaid`).
- A register value is called usable if it is not negative. With no region above 16 MB its T0SZ is more than 39
  (`Memmap.AddressSizeExactly` for 24 bits), which hardware without FEAT_TTST does not accept.
- `Add_To_UC` reads the target's group before its recursive call may move that group. The link is then lost
  (`UcGroups.LinkCanBeLost`), exactly under the guard of `UcGroups.AddLinksExactly`, and over a whole run exactly if some
  call meets it (`UcGroups.ChainsSettleExactly`). The target's group is then always invalid, so
  the pair itself stays safe (`UcGroups.AddCovers`, `TagRuns.ConversionsAreRespected`); chains through it need the guard
  (`TagRuns.ChainsAreRespected`).
- `Common_TBAA` is not symmetric in its value (`AccessTags.CommonOfBothOrders`, `AccessTags.OrdersCanDiffer`).
- `Extract_Access_Type` breaks its own postcondition for an access before the first field of a struct tag
  (`AccessTags.OffsetCanGrow`), and for no other access (`AccessTags.ExtractNeverGrowsExactly`). Such an access can reach
  it: a struct tag has fields for the components of a record only (gnatllvm-records.adb:1570-1589), so a record whose
  first component is placed above offset 0 has nothing in front of it.
- A condition whose first case is not negated may have negated cases later: they are not refused but ignored, like other
  unknown values (`Rules.BuildExactly`).
- `check_deps` need not end: it goes on for ever if two requirements that are reached ask for different values
  (`Profiles.ConflictNeverEnds`), and exactly then or if one that is reached can never match, where rules leave no choice
  and reached triggers accept what reached requirements impose (`Profiles.EndsExactly`).

The table below begins with the main results, down to `Wrapping.ChainEnds`; then come the methods and functions that model
the source, and what else is stated about them.

## Model

| member | source | states |
|---|---|---|
| `Agreement.HardwareSeesRegions` | runtime/arm/memmap.py:404-608 | for every list of regions that the program turns into tables with a usable register: hardware's walk over the emitted words, started as the emitted register says and limited by the physical size in it, does with every address below 2^48 what the plain region map says, attributes included, and faults outside, if and only if each region that is not empty is physically congruent to its largest leaf, lies below 2^48 and, for TCR_EL1, below 2^32 |
| `Permissions.HardwarePermits` | runtime/arm/memmap.py:249-357 | for every list of regions that leads to usable tables: what hardware finds for an address of a region permits and means what its access, cache, cap_load and cap_store strings say, read from the bits of the word (AP, XN, AF, SH, NS, AttrIndx or MemAttr, LC, SC and CDBM); at EL1 user code may execute where the first triple says x |
| `Acceptance.ProgramSucceedsExactly` | runtime/arm/memmap.py:249-462 | which lists of regions lead to tables: accepted strings, no shared address, something to map, at most 52 physical bits, and no lone large block at address 0 (or, without a known mode, a region that ends above 2^39); if and only if |
| `Failures.ProgramFailsExactly` | runtime/arm/memmap.py:249-462 | with which error the program ends: the first region that is refused or that shares an address with an earlier one is to blame, or, once all are inserted, the missing first table or the 53rd address bit |
| `Memmap.RegisterUsableExactly` | runtime/arm/memmap.py:423-429 | the emitted register value is not negative if and only if the mode is not stage2 or some region that is not empty ends above 2 MB |
| `PhysicalSize.RegisterCoversExactly` | runtime/arm/memmap.py:404-429 | for every list of regions: every byte of every mapped page lies below the size that bits 18 to 16 of the emitted value stand for (PS in TCR_EL2 and VTCR_EL2), and that size is the least above the physical addresses of all leaves |
| `PhysicalSize.NoSmallerCovers` | runtime/arm/memmap.py:404-429 | for physically aligned regions: below every smaller PS some mapped byte would not fit |
| `Build.BuildRefinesRegionMap` | runtime/arm/memmap.py:492-606 | from empty tables: accepted if and only if attributes are understood and regions are disjoint; the page walk refines the plain region map on all 2^48 addresses, and the leaves are those of the regions |
| `Build.OrderDoesNotMatter` | runtime/arm/memmap.py:603-606 | the order of the regions changes neither acceptance nor leaves nor any translation |
| `Build.CoverageExactly` | runtime/arm/memmap.py:366-382 | the addresses mapped for a region are exactly its own if and only if it is empty or each block size that divides its size divides its address; they always include its own |
| `Exact.LeafAt` | runtime/arm/memmap.py:359-382 | which leaf translates an address of a region: a 1 GB block if 1 GB divides the size and the gigabyte around the address starts in the region, else a 2 MB block under the same test, else a page |
| `Memmap.AddressSizeExactly` | runtime/arm/memmap.py:431-452 | the address size in the register is the least from 22 bits on that covers all regions |
| `PageTree.OverlapExactly` | runtime/arm/memmap.py:387-395 | an overlap is reported if and only if some address of the new leaf is already translated |
| `Generate.GenerateRefinesTree` | runtime/arm/memmap.py:431-462 | the walk over the emitted image, started and limited as the register says, translates every address below 2^48 as the full tree does |
| `Generate.LabelsDefinedOnce` | runtime/arm/memmap.py:204-230 | in what generate prints, with the first table cut off, every label that a word refers to and the label of the first table is defined by exactly one table |
| `Exact.RegionExactly` | runtime/arm/memmap.py:360-382 | hardware maps a region as described if and only if its physical address is congruent to its virtual one modulo the largest leaf size dividing its size, and all of it lies below 2^48 |
| `Start.ShrinkKeepsWalk` | runtime/arm/memmap.py:431-452 | nothing is mapped at or above the chosen address size, and below it the walk from the chosen table agrees with the walk of the full tree |
| `Memmap.OnlyFourKilobytePages` | runtime/arm/memmap.py:245-462 | with 16 KB or 64 KB granules the program fails for every list of regions, also for one that inserts nothing |
| `Memmap.Run` | runtime/arm/memmap.py:531-608 | the program as a function of its input: a refused granule, the first misaligned region, the error of the builder, or the output |
| `UcGroups.AddLinksExactly` | llvm-interface/gnatllvm-aliasing.adb:353-414 | the two types end in one group or both in invalid groups, if and only if the guard Loses, checkable before the call, does not hold |
| `UcGroups.ChainsSettleExactly` | llvm-interface/gnatllvm-aliasing.adb:332-540 | for every sequence of conversions: types that chains of recorded conversions link are in one group, or all in invalid groups, at every moment of the run, if and only if no call meets the guard |
| `UcGroups.LinkedTypesSettle` | llvm-interface/gnatllvm-aliasing.adb:332-540 | at the end of every run: valid groups are homogeneous, and chains settle if no call met the guard |
| `UcGroups.SearchCovers` | llvm-interface/gnatllvm-aliasing.adb:332-540 | after every list of conversions, of two converted types one gets no tag or both are in one group |
| `UcValidity.InvalidExactly` | llvm-interface/gnatllvm-aliasing.adb:353-414 | over every run: the groups that are invalid are those that a reference spoils, which links types in sets and compares them with Alike; only these in every run, and all of them if no link is lost |
| `UcValidity.OnlyOddSpoils` | llvm-interface/gnatllvm-aliasing.adb:353-414 | over every run: types get into an invalid group only if conversions and the base types these link lead from them to types that differ in size, are aggregates, or are a base type and another type |
| `TagRuns.AliasExactly` | llvm-interface/gnatllvm-aliasing.adb:1023-1130 | exactly which two answers of a run may alias, in terms of the For_Aliased tags of their types: native tags one above the other, a native tag above the native tag of the other type, a For_Aliased tag and the tags of aliased objects with that tag, and no others |
| `TagRuns.AliasByType` | llvm-interface/gnatllvm-aliasing.ads:77-97 | if no two types have the same name and size: exactly which two answers of a run may alias, in terms of groups and base types alone |
| `TagRuns.NothingOutsideItsType` | llvm-interface/gnatllvm-aliasing.ads:77-82 | in every run, tags of two types never alias if no type of the one's family (its group and the groups of the base types) has the name (with the B of Standard integers) and size of a type of the other's |
| `TagRuns.ConversionsAreRespected` | llvm-interface/gnatllvm-aliasing.adb:90-99 | for every list of conversions and every run, an access through a converted pointer may alias the aliased objects of the other type, or one has no tag |
| `TagRuns.ChainsAreRespected` | llvm-interface/gnatllvm-aliasing.adb:90-99 | the same along chains of conversions, if none met the guard of a lost link |
| `TagRuns.DifferentUniquesNeverAlias` | llvm-interface/gnatllvm-aliasing.ads:93-94 | in every run, the tags of two unique requests never alias, whatever their types |
| `TagRuns.UniqueAndAliasedNeverAlias` | llvm-interface/gnatllvm-aliasing.ads:90-91 | in every run, a tag known not to be aliased never aliases one known to be aliased |
| `TagRuns.NativeAliasesItsType` | llvm-interface/gnatllvm-aliasing.ads:96-97 | in every run, a native tag may alias every tag of its type and of its group |
| `TagRuns.AliasedAliasesAliased` | llvm-interface/gnatllvm-aliasing.ads:115-125 | in every run, a For_Aliased tag may alias the tags of all aliased objects of its type and group |
| `TagRuns.MembersShareTags` | llvm-interface/gnatllvm-aliasing.adb:1041-1066 | members of a group get the same native and For_Aliased tags, whichever is asked first |
| `TagRuns.BaseAliasesSubtype` | llvm-interface/gnatllvm-aliasing.adb:1209-1220 | in every run after every list of conversions, the native tag of a base type is above every tag of its subtype if and only if the subtype's native tag was made below a base type's or is the same node; it was if all types of the group that carry a tag have base types that carry one |
| `TagRuns.AnswerExactly` | llvm-interface/gnatllvm-aliasing.adb:1035-1079 | a request gets no tag if and only if strict aliasing is off, the type or its base is void or universal, its group is invalid, or it can carry none (and asks for a unique one, or its group has none yet) |
| `AccessTags.CommonExactly` | llvm-interface/gnatllvm-aliasing.adb:674-695 | a tag is returned if and only if the chains meet, and is then on both |
| `AccessTags.CommonAliasesMore` | llvm-interface/gnatllvm-aliasing.adb:674-695 | the result may alias everything that either input may alias |
| `AccessTags.CommonOfBothOrders` | llvm-interface/gnatllvm-aliasing.adb:674-695 | presence does not depend on the order; the value does, and exactly when is stated |
| `AccessTags.ExtractConserves` | llvm-interface/gnatllvm-aliasing.adb:1554-1583 | for all tags and offsets: place of the component plus new offset is the old offset in 64-bit words, and the tag has the size of the access |
| `AccessTags.ExtractExactly` | llvm-interface/gnatllvm-aliasing.adb:1554-1583 | for ordered fields, offset 0 is left if and only if a component of that size lies at that offset |
| `AccessTags.ExtractNeverGrowsExactly` | llvm-interface/gnatllvm-aliasing.adb:249-257 | the promised bound on the new offset holds if and only if no struct tag on the way down has its first field after the offset that is left |
| `SourceTrees.SelectedDirs` | runtime/support/rts_sources/__init__.py:175-264 | from conditions to directories of a library: however the variables are sorted, those selected are the ones of its sources whose conditions the assignment satisfies, each once; it fails if and only if a directory is defined twice, a condition that is reached is not in order, or the library has no sources |
| `SourceTrees.CompileAndSelect` | runtime/support/bsp_sources/installer.py:163-173 | compile and interpret: exactly the directories whose rule matches the assignment, each exactly once |
| `SourceTrees.Dumper.Dump` | runtime/support/rts_sources/__init__.py:304-367 | whatever the assignment, interpreting the tree lists each wanted directory once and no other; no key occurs twice in a dictionary and none is empty; dirs and env are as before on every return path |
| `Rules.RestrictionAgrees` | runtime/support/rts_sources/__init__.py:180-186 | building against restricted lists and matching agrees with the full lists on every assignment within the restriction |
| `Rules.BuildMeaning` | runtime/support/rts_sources/__init__.py:30-89 | a rule matches exactly the assignments that satisfy its conditions, also when it has become invalid |
| `Rules.BuildExactly` | runtime/support/rts_sources/__init__.py:30-89 | exactly when a rule can be built, and with which error it fails otherwise, in terms of the conditions and known values alone |
| `Profiles.EndsExactly` | runtime/support/rts_sources/profiles.py:27-46 | for tables whose rules can be built and leave no choice, and whose reached triggers accept what reached requirements impose: the loop ends if and only if no reached requirement is unsatisfiable and any two give the same value to a common variable; it then ends in the start with these values |
| `Profiles.EndSatisfies` | runtime/support/rts_sources/profiles.py:27-46 | where the loop ends, for every table: whenever the configuration satisfies the conditions of a source, it satisfies its requirements |
| `Profiles.OrderDoesNotMatter` | runtime/support/rts_sources/profiles.py:28-46 | two runs over the same sources in different orders that end in a configuration end in the same one |
| `Profiles.Configuration.CheckDeps` | runtime/support/rts_sources/profiles.py:27-46 | whenever the loop ends, it ends in a configuration where no source has anything to impose, or with the error of a source |
| `Leb128.ReadUleb128` | llvm-interface/include/unwind-pe.h:146-163 | the value of the encoding at p modulo 2^64, padded or not, and the place just after it |
| `Leb128.ReadSleb128` | llvm-interface/include/unwind-pe.h:168-190 | the same for signed numbers, with sign extension only where there is room |
| `Leb128.ReadAll` | llvm-interface/include/unwind-pe.h:146-190 | the readers in sequence: whatever encodings lie one after the other, padded or not, the numbers and the place after the last one come out |
| `Edits.SourceFile.ApplyAlterations` | llvm/py/common.py:161-165 | edits applied from the end of the file are all edits made at once in the original text, with texts of several lines as they are |
| `Wrapping.ExposedSignature` | llvm/py/transformers.py:106-121 | number, order and names of the arguments are kept, each with the type of the first transformer that is for it |
| `Wrapping.ExposedResult` | llvm/py/transformers.py:44-49 | the exposed result type: kept, or made by a transformer that is for it; the first that is for it decides unless it is a boolean check, and it is kept only if all that are for it are checks and the exposed name has no "Is_" |
| `Wrapping.ExposedName` | llvm/py/transformers.py:75-78 | the exposed subprogram has been renamed once for each wrapper, and wrappers have no aspects |
| `Wrapping.OwnSignature` | llvm/py/wrapper.py:100-132 | with the generator's own transformers: the exposed type of every argument and of every result but numbers |
| `Wrapping.ChainEnds` | llvm/py/wrapper.py:152-165 | at the end no transformer accepts the last wrapper |
| `PageTree.InsertKeepsWellFormed` | runtime/arm/memmap.py:384-402 | insertion keeps the invariant of the tables: every leaf sits in the slot of its own address and has its table's slot size, every lower table covers exactly its slot, none is without a leaf |
| `PageTree.InsertWalk` | runtime/arm/memmap.py:384-402 | after a successful insertion the walk finds the new leaf on exactly its addresses and is unchanged everywhere else |
| `PageTree.WalkFindsHit` | runtime/arm/memmap.py:197-202 | what a walk finds is aligned to its size and covers the address walked |
| `PageTree.MisfitNeverSucceeds` | runtime/arm/memmap.py:396-402 | a leaf size that no table has can only end in an error, and in an empty tree in a negative shift |
| `Mmu.Aarch64Mmu.InsertEntry` | runtime/arm/memmap.py:384-402 | the in-place insertion into linked tables has the effect and the errors of the function on trees |
| `Mmu.Aarch64Mmu.AddTable` | runtime/arm/memmap.py:397-401 | a missing table is created empty in its slot and nothing else changes |
| `Mmu.Aarch64Mmu.Descend` | runtime/arm/memmap.py:396-402 | going on in the lower table changes that slot only |
| `Descriptors.DescriptorReadBack` | runtime/arm/memmap.py:171-187 | type bits, attributes and page number of a leaf read back from its 64-bit word |
| `Descriptors.OutputExact` | runtime/arm/memmap.py:181-187 | hardware's output address is the leaf's physical address if and only if that is aligned to the leaf and has 48 bits; otherwise it is rounded down, and always within 48 bits |
| `Descriptors.UpperFieldsReadBack` | runtime/arm/memmap.py:302-334 | each upper attribute chosen for a region reads back at its architectural position |
| `Descriptors.LowerFieldsReadBack` | runtime/arm/memmap.py:327-354 | each lower attribute chosen for a region reads back at its architectural position |
| `Regions.CutStep` | runtime/arm/memmap.py:359-382 | one round of the loop of insert stays on its track of addresses, never passes the first multiple of the largest leaf size after the region, and ends exactly there |
| `RegionMap.InsertCut` | runtime/arm/memmap.py:359-382 | inserting the leaves of a region succeeds if and only if its addresses are free, then translates them as the region says and changes no other translation |
| `Mmu.Aarch64Mmu.PickSize` | runtime/arm/memmap.py:362-372 | the divisibility tests pick the leaf size of the specification |
| `Mmu.Aarch64Mmu.CoverAddress` | runtime/arm/memmap.py:377-378 | the inner loop widens max_pa as the specification says |
| `Mmu.Aarch64Mmu.InsertLeaf` | runtime/arm/memmap.py:366-380 | one round of the loop: either the next state of the specification or its error |
| `Mmu.Aarch64Mmu.Fill` | runtime/arm/memmap.py:359-382 | the loop over a region leaves the tables and max_pa of the specification, or its error |
| `Mmu.Aarch64Mmu.Insert` | runtime/arm/memmap.py:249-382 | insert as a whole: attributes first, then the leaves; new tables, new max_pa or the error |
| `Tcr.FillIsInsertAll` | runtime/arm/memmap.py:366-382 | the loop that mixes picking, widening and inserting is the insertion of the list of leaves and the widening over their addresses |
| `Build.InsertRegionExactly` | runtime/arm/memmap.py:249-382 | one region is accepted if and only if none of its addresses is translated yet; nothing else changes |
| `Build.InsertRegionsExactly` | runtime/arm/memmap.py:603-606 | a list of regions is accepted if and only if they are free and disjoint, and then the walk is the region map |
| `Tcr.GrowAllTight` | runtime/arm/memmap.py:377-378 | over the leaves of a region max_pa stays the tightest 2^k - 1, k >= 32, above all physical addresses so far |
| `Tcr.PhysicalSizeExactly` | runtime/arm/memmap.py:404-421 | from a tight max_pa: the chosen PS covers every physical address and no smaller one does; there is none if and only if an address needs more than 52 bits |
| `Tcr.OutputBelow` | runtime/arm/memmap.py:404-423 | every byte of a mapped page is below any physical size that covers its address |
| `Tcr.TcrReadBack` | runtime/arm/memmap.py:403-429 | address size, start level, granule and physical size read back from the register, for each of the three granules |
| `Tcr.NegativeTcr` | runtime/arm/memmap.py:424-429 | at level 3 the stage-2 start level field is -1 and the register value negative |
| `Tcr.El1Fields` | runtime/arm/memmap.py:404-423 | read as TCR_EL1 the value says physical size 0, and has the chosen size in T1SZ |
| `Tcr.PsExactly` | runtime/arm/memmap.py:404-421 | for every max_pa: there is a PS if and only if it is below 2^52, and then the least one whose addresses reach it |
| `Mmu.Aarch64Mmu.SetTcr` | runtime/arm/memmap.py:404-429 | set_tcr computes the register value of the specification, and fails without a physical size |
| `Start.ShrinkResult` | runtime/arm/memmap.py:431-452 | the loop ends in a table within the full one, with its upper half in use or at the deepest level |
| `Start.ShrinkFailsExactly` | runtime/arm/memmap.py:442-448 | for a known mode the loop fails if and only if all that is mapped is one block at address 0 larger than the deepest level's slots |
| `Mmu.Aarch64Mmu.FindFirst` | runtime/arm/memmap.py:431-452 | the loop finds the table, level and size of the specification, with va_max = log2 of the entries + the table's shift, or its error |
| `Mmu.Aarch64Mmu.KeepSlots` | runtime/arm/memmap.py:459 | the slots beyond sz are dropped and nothing else changes |
| `Mmu.Aarch64Mmu.Generate` | runtime/arm/memmap.py:431-462 | generate returns the image, the first label and the register value of the specification, or its error |
| `Mmu.Aarch64Mmu.GenerateTable` | runtime/arm/memmap.py:216-230 | the printed sections are those of the specification: lower tables first, then the table itself |
| `Image.EmitLabels` | runtime/arm/memmap.py:204-230 | all labels of the emitted tables are distinct, although a table is named by the first leaf inserted below it |
| `Image.EmitClosed` | runtime/arm/memmap.py:204-230 | every label that an emitted word refers to is that of an emitted table |
| `Hardware.HwWalkRefinesWalk` | runtime/arm/memmap.py:189-230 | a hardware walk over the emitted words finds what the walk of the tree finds, or an address size fault where the leaf lies beyond the physical size |
| `Generate.TcrUsableExactly` | runtime/arm/memmap.py:423-429 | in terms of the tables: the register value is not negative if and only if the mode is not stage2 or something is mapped at or above 2 MB |
| `Generate.GenerateSucceedsExactly` | runtime/arm/memmap.py:431-462 | generate succeeds if and only if something is mapped, the addresses have a physical size, and, by mode, there is no lone block or something lies at or above 2^39 |
| `Generate.FirstLevel` | runtime/arm/memmap.py:432-433 | the first level is the deepest from which tables translate 48 bits |
| `Exact.RegionEnds` | runtime/arm/memmap.py:366-382 | where the last block of a region ends: at the first multiple of the largest block dividing its size |
| `Memmap.CheckRegions` | runtime/arm/memmap.py:492-524 | the first region with a number that is not a multiple of a page ends the program, and the error names it and the number; there is none if and only if all are aligned |
| `Memmap.InsertRegionsOf` | runtime/arm/memmap.py:603-606 | the loop over the regions leaves the tables and max_pa of the specification, or fails with it |
| `Memmap.RegisterValue` | runtime/arm/memmap.py:423-429 | the register value consists of T0SZ, the start level in stage 2, and the physical size, and of nothing else |
| `Memmap.MisalignedExactly` | runtime/arm/memmap.py:505-513 | which number of a region is named: the first of virt, phys and size with a remainder modulo the page size |
| `Failures.InsertionFailsExactly` | runtime/arm/memmap.py:249-401 | insertion ends with an error if and only if a region is to blame for it |
| `UcValidity.AlikeStaysValid` | llvm-interface/gnatllvm-aliasing.adb:362-366 | if all conversions, and the base types they link, are between types that are alike, no group is invalid |
| `UcValidity.OddIsInvalid` | llvm-interface/gnatllvm-aliasing.adb:362-409 | if no link is lost, the types of a conversion that is not between alike types, and all types chained to them, end in invalid groups |
| `Permissions.AcceptedExactly` | runtime/arm/memmap.py:253-357 | exactly which strings describe a region that insert accepts, by mode |
| `Permissions.RefusedExactly` | runtime/arm/memmap.py:253-357 | with which error a region is refused |
| `Permissions.UserAsSaid` | runtime/arm/memmap.py:311-324 | at EL1 the second triple of the access string says what user code may do if and only if it is rw-rw- |
| `Acceptance.LeavesAreWalked` | runtime/arm/memmap.py:384-402 | a leaf is in the tables if and only if the walk from some address finds it |
| `PhysicalSize.GrowJobsTight` | runtime/arm/memmap.py:245-378 | the same over the loop over all regions, which starts from 0xFFFFFFFF |
| `UcGroups.UcTable.FindUcGroup` | llvm-interface/gnatllvm-aliasing.adb:546-555 | the search returns the group of the first entry of the type, or 0 |
| `UcGroups.UcTable.MoveGroup` | llvm-interface/gnatllvm-aliasing.adb:395-409 | the loop relabels a group and spreads invalidity as the specification says |
| `UcGroups.UcTable.Add` | llvm-interface/gnatllvm-aliasing.adb:353-414 | Add_To_UC leaves the table, the group counter and the validity of the specification |
| `UcGroups.AddKeepsHomogeneous` | llvm-interface/gnatllvm-aliasing.adb:353-414 | every call keeps each type in one group, and the types of a group without invalid entry of one size, no aggregates, and all base types or none |
| `UcGroups.StaleGroupIsInvalid` | llvm-interface/gnatllvm-aliasing.adb:360-378 | a group number that was read before the recursive call and is out of date belonged to an invalid group, and the recursive call has reported it |
| `UcGroups.AddLinksBases` | llvm-interface/gnatllvm-aliasing.adb:376-378 | the base types of two linked types are always linked |
| `UcGroups.AddCovers` | llvm-interface/gnatllvm-aliasing.adb:353-414 | in every case, also when the link is lost, the two types are in one group or one of them is in an invalid group |
| `UcGroups.SearchKeeps` | llvm-interface/gnatllvm-aliasing.adb:332-540 | these invariants over every list of conversions |
| `UcGroups.LinkCanBeLost` | llvm-interface/gnatllvm-aliasing.adb:353-414 | four conversions between seven types after which a linked pair is not settled |
| `UcGroups.NoneLostExactly` | llvm-interface/gnatllvm-aliasing.adb:332-540 | no call of a run meets the guard if and only if after each call all conversions so far are linked |
| `Tags.DecimalReadBack` | llvm-interface/gnatllvm-aliasing.adb:967-971 | the decimal image of the name index is injective, since it reads back |
| `Tags.UniquesNeverAlias` | llvm-interface/gnatllvm-aliasing.ads:93-94 | two unique tags with different indices are never one above the other |
| `Tags.UniqueNeverAliasesAliased` | llvm-interface/gnatllvm-aliasing.ads:90-91 | a unique tag of an object that is not aliased and a For_Aliased tag are never one above the other |
| `TypeTags.GetOutcome` | llvm-interface/gnatllvm-aliasing.adb:1023-1130 | every request: which answer it gets in terms of the For_Aliased tag found or made, which requests are refused (if and only if), what is saved, and that earlier tags and indices are kept |
| `TagTable.TbaaTable.GetTbaaName` | llvm-interface/gnatllvm-aliasing.adb:932-976 | the name of the specification; the index moves on for unique names only |
| `TagTable.TbaaTable.CreateTbaaType` | llvm-interface/gnatllvm-aliasing.adb:1209-1271 | the node of the specification, after the base type's native tag if no parent is given |
| `TagTable.TbaaTable.SearchGroup` | llvm-interface/gnatllvm-aliasing.adb:1045-1066 | the scan of the UC table: the first saved tag of the group, and whether the group is valid |
| `TagTable.TbaaTable.GetTbaaType` | llvm-interface/gnatllvm-aliasing.adb:1023-1130 | the method has the effect and result of the specification |
| `TagRuns.RunKeeps` | llvm-interface/gnatllvm-aliasing.adb:1023-1130 | the invariants in every state that requests lead to |
| `TagRuns.AnswerOfRun` | llvm-interface/gnatllvm-aliasing.adb:1023-1130 | every answer in a run, in terms of the one For_Aliased tag its type has at the end of it |
| `TagRuns.InitializedSound` | llvm-interface/gnatllvm-aliasing.adb:265-278 | the tables after Search_For_UCs meet what the requests need |
| `TagRuns.NodesOfAnswers` | llvm-interface/gnatllvm-aliasing.adb:932-971 | the name and size of the node of every answer, from the name of the type, the B for integers of Standard, the mark of the kind and the index |
| `TagRuns.AlikeGetTags` | llvm-interface/gnatllvm-aliasing.adb:1035-1066 | if all conversions are between alike types, every type that can carry a tag and is not turned down gets one |
| `AccessTags.CommonIs` | llvm-interface/gnatllvm-aliasing.adb:674-695 | what Common_TBAA returns, in terms of the two chains of tags of one size |
| `AccessTags.OffsetCanGrow` | llvm-interface/gnatllvm-aliasing.adb:1566-1575 | an access before the first field wraps around and breaks that bound |
| `AccessTags.ExtractAccessType` | llvm-interface/gnatllvm-aliasing.adb:1554-1583 | the loop over the fields computes the specification |
| `AccessTags.OrdersCanDiffer` | llvm-interface/gnatllvm-aliasing.adb:674-695 | a tag and its parent for which the two orders give different ancestors |
| `Rules.AcceptedMeaning` | runtime/support/rts_sources/__init__.py:47-82 | the accepted values of a condition are the known values for which it holds, also when negated |
| `Rules.MakeRule` | runtime/support/rts_sources/__init__.py:23-89 | the loop over the conditions builds the rule of the specification, or its error |
| `Rules.Select` | runtime/support/rts_sources/__init__.py:68-82 | the loop over the cases selects the values of the specification, or its error |
| `SourceTrees.PruningKeepsWanted` | runtime/support/rts_sources/__init__.py:323-332 | pruning removes no directory that matches below the node |
| `SourceTrees.Dumper.MatchedDirs` | runtime/support/rts_sources/__init__.py:311-315 | the directories that match the environment exactly, each once |
| `SourceTrees.Dumper.Prune` | runtime/support/rts_sources/__init__.py:323-332 | the rules removed are exactly those that match here or cannot match below, and putting them back restores the dictionary |
| `SourceTrees.Dumper.DumpVariable` | runtime/support/rts_sources/__init__.py:352-361 | one variable is added to what the tree lists; dirs and env are as before |
| `SourceTrees.SourceTree.AddRule` | runtime/support/rts_sources/__init__.py:237-264 | the rule is recorded in the collection of its library, gnat or gnarl, unless the directory is there already; the other collection is unchanged, and variables keep covering the rules, each once |
| `SourceTrees.SortedCovers` | runtime/support/rts_sources/__init__.py:213-224 | sorting the variables keeps the cover |
| `SourceTrees.GetRtsDirs` | runtime/support/bsp_sources/installer.py:163-173 | the interpreter's loop computes the evaluation of the tree |
| `SourceTrees.MakeTree` | runtime/support/rts_sources/__init__.py:175-210 | the loop over the sources: both collections and the requirements are those of the sources, or the first failure |
| `SourceTrees.LibraryExactly` | runtime/support/rts_sources/__init__.py:246-252 | a directory belongs to gnarl if and only if it is gnarl or begins with gnarl/ |
| `SourceTrees.MayMatchBelow` | runtime/support/rts_sources/__init__.py:135-145 | a rule is a partial match if and only if it matches exactly at some assignment that goes on from there |
| `Profiles.Configuration.CheckSource` | runtime/support/rts_sources/profiles.py:31-44 | one source: its requirement is imposed if and only if it is triggered and does not hold; rules that cannot be built and choices are errors, found only when looked at |
| `Profiles.Configuration.Round` | runtime/support/rts_sources/profiles.py:28-44 | one pass over the sources has the effect, the modified flag and the errors of the specification |
| `Profiles.PassUnmodified` | runtime/support/rts_sources/profiles.py:45-46 | the loop stops if and only if no source has anything to impose |
| `Profiles.EndsOnlyIfCompatible` | runtime/support/rts_sources/profiles.py:27-46 | the same for rules that cannot be built and requirements with a choice: ending in a configuration needs compatible requirements, and with them the loop ends, there or with an error |
| `Profiles.EndIsLeast` | runtime/support/rts_sources/profiles.py:27-46 | every closed configuration that keeps or raises the start has all values of the one in which the loop ends |
| `Profiles.CompatibleHalts` | runtime/support/rts_sources/profiles.py:27-46 | whatever triggers accept: if the requirements reached from the start are compatible, the loop ends |
| `Profiles.ConflictNeverEnds` | runtime/support/rts_sources/profiles.py:27-46 | two sources with the same condition, requirements for different values and a start that triggers them, for which the loop never ends |
| `Profiles.TriggeredAgree` | runtime/support/rts_sources/profiles.py:31-46 | a pass without a modification leaves a configuration where the triggered requirements are compatible, for every table |
| `Profiles.StepFails` | runtime/support/rts_sources/profiles.py:31-44 | exactly when a source ends the loop with an error |
| `Leb128.EncodeMeans` | llvm-interface/include/unwind-pe.h:142-163 | every number is what its encoding means |
| `Leb128.PadMeansTheSame` | llvm-interface/include/unwind-pe.h:142-190 | one more byte that adds nothing does not change the number |
| `Leb128.ConcatReadBack` | llvm-interface/include/unwind-pe.h:146-190 | encodings one after the other, padded or not, mean the numbers that ReadAll returns, up to their end |
| `Leb128.EncodeReadBack` | llvm-interface/include/unwind-pe.h:146-190 | the same for the encodings of every list of 64-bit numbers |
| `Leb128.EncodeAndRead` | llvm-interface/include/unwind-pe.h:146-190 | every list of 64-bit numbers survives being encoded and read by the readers |
| `Leb128.ReadPieces` | llvm-interface/include/unwind-pe.h:142-190 | conversely, what is read is a list of encodings one after the other |
| `Edits.SourceFile.Alter` | llvm/py/common.py:119-127 | one edit in place: columns within a line, or whole lines; what is then written is the text before, the new text, and the text after |
| `Edits.OneMore` | llvm/py/common.py:119-127 | an edit before all edits already made gives what making it with them gives |
| `Edits.SplitIs` | llvm/py/common.py:124-125 | the lines of a text have no newline, and written they give the text |
| `Wrapping.WrappedExactly` | llvm/py/wrapper.py:148-150 | there is a wrapper if and only if some transformer accepts the subprogram |
| `Wrapping.ProfilesDiffer` | llvm/py/wrapper.py:157-165 | the C function and its wrappers all have different profiles |
| `Wrapping.Round` | llvm/py/wrapper.py:161-165 | one round of the loop, with the callback keeping the last wrapper |
| `Wrapping.GenerateDecl` | llvm/py/wrapper.py:202-218 | the signature exposed is that of the last wrapper of the chain, if there is one |
| `Wrapping.NoCTypesExposed` | llvm/py/wrapper.py:23-132 | with the generator's own transformers no C string or boolean type is exposed |
| `Wrapping.IsWrapperNeeded` | llvm/py/wrapper.py:140-150 | a subprogram needs a wrapper if and only if it does not initialize natively and the chain of wrappers is not empty |
| `Wrapping.Replacement` | llvm/py/common.py:440-447 | what is exposed: the last wrapper of the chain, or the subprogram itself if it needs none |
| `Wrapping.CheckedResult` | llvm/py/transformers.py:213-223 | with the generator's own transformers a number is exposed as Boolean if and only if the name, renamed once for each wrapper that the arguments need, has "Is_" in it |
| `Wrapping.NewNameIs` | llvm/py/transformers.py:63-73 | the new name: Build_ goes from the front unless an Ada keyword is left, in any letter case, and every _Builder goes |
| `Wrapping.WithoutFirst` | llvm/py/transformers.py:72 | deleting a part: the first occurrence goes, and the same happens to the rest |

## Left out

- `arm_mmu` in memmap.py, a flat table.
- Parsing of XML, command lines and addresses with suffixes, and the printed text; labels, words and sections are values.
- Addresses at or above 2^48: regions are taken to end at or below 2^48; the code masks table indices without a test.
- The text of error messages: each way to stop is one error value.
- Agreement.HardwareSeesRegions: for runs whose register value is usable, which Memmap.RegisterUsableExactly says exactly, and tables loaded at a page boundary within the physical memory that the register lets hardware address. Memory types, permissions and the fields of the register that set_tcr does not write are not part of the walk.
- The texts of messages and exceptions: the model keeps their kinds (`Failures.ProgramFailsExactly`).
- Path prefixes and normalisation, the JSON text, and the splitting of scenario strings at `:` and `,`: conditions come split.
- Scenario lists with duplicate values, which no table has.
- The directories that `SourceTree.__init__` leaves out by name for a profile, and those without files: the sources are an arbitrary list.
- The iteration order of Python dictionaries is modelled as any order.
- The counters of how often a variable is used, which only decide the order of the variables.
- Profiles.Configuration.CheckDeps: for runs that end; Profiles.CompatibleHalts and Profiles.EndsExactly say which do.
- Profiles.EndsExactly: for tables in which reached triggers accept what reached requirements impose; where a requirement can take a trigger back, only Profiles.CompatibleHalts and Profiles.TriggeredAgree apply.
- Check_For_UC: its filters only decide which conversions reach Add_To_UC, and the conversions are an arbitrary list here. Base_Type_For_Aliasing is a function that is its own base.
- Tags of GL types, arrays and records, of tagged derivations, the suffixes of Get_TBAA_Name for them, Find_Equiv_Subtype (which returns elementary types unchanged), Compute_TBAA_Access and Compute_TBAA_Struct.
- Name_Idx is unbounded; the program would raise Constraint_Error at 2^31.
- AccessTags.CommonIs: for two tags that are present; with a missing one the program returns none.
- AccessTags.ExtractExactly: for struct tags whose fields are in order, do not overlap and lie within it, and for sizes below 2^64.
- AccessTags.ExtractNeverGrowsExactly: for the same tags, and offsets below 2^64.
- Leb128.ReadUleb128: encodings of at most ten bytes with a last byte, since longer ones shift by more than the word in C, which has no defined value.
- size_of_encoded_value and read_encoded_value in unwind-pe.h.
- Edits.SourceFile.ApplyAlterations: needs columns below 100000 and edits that do not touch each other, as the sort key does; text is a list of characters, not UTF-8 bytes.
- The bodies of wrappers, their local variables and their layout.
- Renaming of C identifiers, libadalang, and the rest of the binding generator.
