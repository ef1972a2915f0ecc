# Verified models of the Lightning bridge's own algorithms

This project models four pieces of the repository in Dafny and proves what they promise.

* **The ELF rewriter** (`patchelf`). A file is one byte buffer with its program and section headers.
  Replacing sections sorts the headers while keeping references by name, makes room by growing or
  shifting the file, lays the replacements out, adds a segment, and repairs headers, dynamic entries
  and symbols. `ElfFile.dfy` is the class that does this in place; `Sections`, `Layout`, `Carrying`,
  `Patching`, `Headers`, `Rewriting` and `Library` say on values what its steps do and preserve.
  `Formats`, `Segments`, `CrossReferences` and `Loading` draw the conclusions, in the offsets and numbers
  of the System V gABI (`Formats.Numbers`, `KindsOfSections` and the lemmas on section names hold the
  constants to it). `Dynamic`, `Needed`, `Shrinking` and `Resolution` are the meaning of the editing
  operations, `DynamicBytes`, `Editing`, `NeededEditing` and `ShrinkEditing` carry them out on the file,
  and `Surviving` puts edit and rewrite together.
* **The signer's Bitcoin and Lightning algorithms**: the shachain (`Shachain`), canonical integers and
  the transaction decoder (`VarInts`, `Transactions`) with its pooled buffers (`ScriptPools`), scripts
  (`Scripts`), and the BIP 143 preimage (`Sighash`). Hash functions are arbitrary functions.
* **The sign request** written by the proxy and read by two independent parsers (`SignRequests`).
* **The archiver `sltar`** for regular files (`Sltar`).

`dafny verify dfyconfig.toml` checks everything.

## What the rewriter's theorems assume

Host and file are little-endian. Section names are distinct and, where symbols refer to them, not
empty; section 0 alone has offset 0; links are in range; sections with file contents lie in the file
and share no byte with each other or with the section header table; the page size is a power of two
that holds an ELF header. Files stay below 1 GiB and replacements below 2 GiB, so that 32-bit sizes
suffice; where 32-bit rounding matters for addresses, the exact limit is proved. The dynamic section
has a DT_NULL entry. For executables the program headers follow the ELF header, and sections without
file contents (.bss) come after some section of code or data. One editing operation is made per run.
The string table of the dynamic section ends with a NUL.

## Where code and documentation differ

The models follow the code.

* patchelf's notes say that `--force-rpath` deletes a DT_RUNPATH. The code does so only if there is a
  DT_RPATH as well (`Dynamic.TagsAfterSet`). They also say that both entries are updated when both are
  present; when the new path fits in place, only the string of DT_RUNPATH is overwritten, which under
  `--force-rpath` can leave the old path in effect (`Dynamic.SetThenPrint`,
  `Dynamic.ForcedSetCanBeOverlooked`).
* They say that shrinking removes directories without a needed library. The code removes every
  absolute directory that is not the first with one (`Shrinking.KeptExactly`). It also loses empty
  components, which stand for the working directory: all in front of what is kept, and one behind the
  last colon (`Resolution.LeadingEmptyIsLost`, `Resolution.TrailingEmptyIsLost`);
  `Resolution.ShrinkingResolves` says exactly when that changes where libraries are found.
* The signer's parser never leaves the single tweak of a sign request absent, so that the double tweak
  is never used (`SignRequests.TweakingKept`).
* The signer's comments speak of SINGLE and NONE; its test looks at single bits, so that non-standard
  hash types such as 6 differ from BIP 143 (`Sighash.FieldsAreBip143`). The comment on removing code
  separators describes something the code does not do; BIP 143 does not ask for it before one has
  been executed.
* A legacy transaction without inputs is taken for one with a witness (`Transactions.DecodeOfSerialize`).
* `sltar` adds up signed characters, so its checksum is that of POSIX only for 7-bit headers
  (`Sltar.ChecksumIsPosix`).

## Model

| member | source | states |
|---|---|---|
| ElfFiles.ElfFile.RewriteSectionsExecutable | bitcoin-core/patchelf-0.9/src/patchelf.cc:655-773 | rewriting an executable ends with a well-formed file in which every section holds its replacement or its old bytes (references inside repaired); the headers and, behind them at one distance from their addresses, the replaced sections lie in front of everything else, all others `shift` whole pages further on at their old addresses, and every program header is said field by field in the numbers of the gABI (`Segments.ExecutableSegments`): a PT_DYNAMIC or PT_INTERP whose section was replaced has offset, address and size of that section, PT_PHDR those of the table, all others are as before but for the shift; PT_PHDR comes first, the others by address. Every section header is said likewise (`Rewriting.HeadersSay`). For what it has settled on to replace (`Rewriting.Chosen`), it runs out of address space or of file size exactly when the space missing, in whole pages, is more than there is (`Rewriting.FailsExactly`); the assertions at 672, 680 and 709 fail only as `Rewriting.Explained` says, and those at 724 and 769 never |
| ElfFiles.ElfFile.RewriteSectionsLibrary | bitcoin-core/patchelf-0.9/src/patchelf.cc:570-651 | rewriting a library moves nothing but the replaced sections, which come to lie in one new segment behind the file; every program header is said field by field (`Segments.LibrarySegments`), in the order of addresses; it fails for size exactly when that segment does not fit, and the assertions at 618 and 644 never fail |
| ElfFiles.ElfFile.RewriteSections | bitcoin-core/patchelf-0.9/src/patchelf.cc:777-793 | for both types, contents and references are preserved, the file stays well-formed, and reading its tables at the offsets of the gABI gives the headers; without replacements nothing changes; other types are refused |
| ElfFiles.ElfFile.SortShdrs | bitcoin-core/patchelf-0.9/src/patchelf.cc:347-386 | the sorted table has the same sections with links, relocation targets and string table index naming the same sections as before |
| Sections.RelinkedIsResorted | bitcoin-core/patchelf-0.9/src/patchelf.cc:347-386 | for any permutation that orders the headers by offset, translating references to names and back keeps the link graph and every other field |
| Sections.ResortedTwice | bitcoin-core/patchelf-0.9/src/patchelf.cc:655-773 | sorting again, as every rewrite does, still keeps the link graph of the original table |
| Sections.PermutedNames | bitcoin-core/patchelf-0.9/src/patchelf.cc:479-484 | after a permutation, look-up by name finds the same header in its new place |
| Sections.SortByOffset | bitcoin-core/patchelf-0.9/src/patchelf.cc:367-370 | the sort gives an ordered arrangement of exactly the given headers |
| Sections.FirstStaysFirst | bitcoin-core/patchelf-0.9/src/patchelf.cc:367-376 | section 0, alone at offset 0, stays in front, so loops from index 1 see all others |
| ElfFiles.ElfFile.FindSection3 | bitcoin-core/patchelf-0.9/src/patchelf.cc:479-484 | the index found is that of the section of that name, 0 exactly when there is none |
| ElfFiles.ElfFile.GrowFile | bitcoin-core/patchelf-0.9/src/patchelf.cc:244-251 | growing fails exactly beyond the maximum size and otherwise appends zeros |
| ElfFiles.ElfFile.ReplaceSection | bitcoin-core/patchelf-0.9/src/patchelf.cc:488-505 | the replacement is the current contents of the section, cut or zero-filled to the size asked for; it fails exactly for an unknown section |
| ElfFiles.ElfFile.WriteReplacedSections | bitcoin-core/patchelf-0.9/src/patchelf.cc:509-566 | each replacement lies in its own slot, slots follow one another and keep one slide, old places are blotted out, nothing else changes, and the running offset ends where the space accounting says |
| Layout.SpacedFromTotals | bitcoin-core/patchelf-0.9/src/patchelf.cc:556-562 | replacements rounded to the section alignment never overlap and end within the total |
| Layout.WriteKeepsEarlier | bitcoin-core/patchelf-0.9/src/patchelf.cc:519-562 | writing one replacement leaves those written before it intact |
| Carrying.WrittenData | bitcoin-core/patchelf-0.9/src/patchelf.cc:519-562 | after the two passes every replaced section holds exactly its replacement where its header says |
| Carrying.WrittenKeeps | bitcoin-core/patchelf-0.9/src/patchelf.cc:509-566 | sections that are not replaced keep their bytes when the replacements go to a free region |
| Carrying.WrittenIsWellFormed | bitcoin-core/patchelf-0.9/src/patchelf.cc:509-566 | writing into a free region gives a file whose sections and header tables again share no byte |
| ElfFiles.ElfFile.ReplaceSectionsInTheWay | bitcoin-core/patchelf-0.9/src/patchelf.cc:662-715 | afterwards every section before the chosen offset is being replaced, those pulled in are movable and carry their old bytes |
| Layout.ScanStep | bitcoin-core/patchelf-0.9/src/patchelf.cc:692-713 | each section passed by the scan has file contents and is either replaced already or pulled in with exactly these |
| Layout.BudgetBound | bitcoin-core/patchelf-0.9/src/patchelf.cc:692-713 | sorted, disjoint sections in the way take no more room than the file had, plus rounding |
| ElfFiles.ElfFile.MoveSectionTable | bitcoin-core/patchelf-0.9/src/patchelf.cc:721-736 | the section header table is moved to the grown end of the file exactly when the replacements would overwrite it |
| Carrying.TableMovedCarries | bitcoin-core/patchelf-0.9/src/patchelf.cc:721-736 | moving the table leaves all sections and references as they were |
| ElfFiles.ElfFile.ShiftFile | bitcoin-core/patchelf-0.9/src/patchelf.cc:410-450 | the file is moved up by whole pages with all offsets, and gains a segment for its new front; it fails exactly when too large |
| Carrying.ShiftCarries | bitcoin-core/patchelf-0.9/src/patchelf.cc:410-450 | every section's bytes move with its offset, references and well-formedness stay |
| Layout.ShiftKeepsLoadable | bitcoin-core/patchelf-0.9/src/patchelf.cc:430-437 | a segment whose address was congruent to its offset modulo its alignment still is after the shift; the alignment changes only to a smaller page size |
| Layout.ShiftedSegmentsLoadable | bitcoin-core/patchelf-0.9/src/patchelf.cc:410-450 | all segments after a shift, with the added one, can be loaded under the System V gABI rule for p_align |
| Loading.SegmentsStayLoadable | bitcoin-core/patchelf-0.9/src/patchelf.cc:410-450 | after a whole rewrite of an executable every PT_LOAD segment of the final table can be loaded, if all could before |
| Loading.ReplacedAreLoaded | bitcoin-core/patchelf-0.9/src/patchelf.cc:410-450 | every byte of a replaced section is loaded where its header says, by the added segment or the one that began the file before |
| Rewriting.FirstPageIsPage | bitcoin-core/patchelf-0.9/src/patchelf.cc:717-751 | the address computed for the new front is on a page boundary |
| ElfFiles.ElfFile.MakeRoom | bitcoin-core/patchelf-0.9/src/patchelf.cc:739-763 | the file is shifted by exactly the whole pages that are missing, and then headers and replacements fit in front of everything else; it fails exactly when these are more than the address space below the file or than the file may grow |
| Rounding.PagesCover | bitcoin-core/patchelf-0.9/src/patchelf.cc:739-763 | the number of pages computed covers the missing space with less than a page to spare |
| Rounding.RoundUpIsCeiling | bitcoin-core/patchelf-0.9/src/patchelf.cc:403-406 | roundUp gives the least multiple at or above its argument, also for 0, away from the top of the 32-bit range |
| Rounding.RoundUpCovers | bitcoin-core/patchelf-0.9/src/patchelf.cc:403-406 | roundUp reaches its argument exactly when argument plus modulus is at most 2^32 |
| Library.NewSegmentAboveOthers | bitcoin-core/patchelf-0.9/src/patchelf.cc:576-631 | the new segment begins at or above every other segment's end exactly when each of these ends a page below 4 GiB |
| Library.LibraryPlaceIsPage | bitcoin-core/patchelf-0.9/src/patchelf.cc:594-631 | the new segment is page-aligned in the file and in memory and begins behind the end of the file |
| Library.HoleIsPages | bitcoin-core/patchelf-0.9/src/patchelf.cc:606-620 | the hole left in an executable marked as a library consists of whole pages, so the assertion at 618 holds |
| Library.MappedIntro | bitcoin-core/patchelf-0.9/src/patchelf.cc:622-647 | the new segment lies in the file, is congruent, and maps the program headers and every replaced section |
| ElfFiles.ElfFile.RewriteHeaders | bitcoin-core/patchelf-0.9/src/patchelf.cc:797-901 | if the headers fit, the little-endian integer at each offset that the gABI gives (shoff + i * 40 + 24 is sh_link of section i, and so on for all fields, both tables and both classes) is that field of the header (`Formats.TablesRead`); sections stay, and only references inside sections are changed; it fails exactly when a section referred to is missing |
| Formats.HeldTablesRead | bitcoin-core/patchelf-0.9/src/patchelf.cc:797-829 | tables written entry by entry read back, at the literal offsets of the gABI, as the headers they were written from |
| Formats.TablesInFileRead | bitcoin-core/patchelf-0.9/src/patchelf.cc:797-829 | the same for any file that is known to hold its tables |
| ElfFiles.ElfFile.SortPhdrs | bitcoin-core/patchelf-0.9/src/patchelf.cc:108-117 | the program headers are rearranged, PT_PHDR first and the others by physical address |
| Headers.TablesWrittenKeep | bitcoin-core/patchelf-0.9/src/patchelf.cc:801-829 | writing the header tables leaves all sections intact and both tables readable |
| Headers.HeadersRewrittenIntro | bitcoin-core/patchelf-0.9/src/patchelf.cc:797-901 | the whole of rewriteHeaders: contents of each section are its old bytes, repaired |
| Segments.ExecutableIsSaid | bitcoin-core/patchelf-0.9/src/patchelf.cc:410-560 | in terms of fields and literal segment types, each segment of a rewritten executable is a shifted segment of the input, or one that covers its replaced section or the table |
| Segments.LibraryIsSaid | bitcoin-core/patchelf-0.9/src/patchelf.cc:531-631 | the same for a library, with the new segment |
| Rewriting.RewrittenHeaders | bitcoin-core/patchelf-0.9/src/patchelf.cc:509-566 | field by field, every section header of the final file: address, size and place as replaced or moved, alignment 4 or 8 only where the source sets it, links and relocation targets naming the same sections |
| Rewriting.CodeStays | bitcoin-core/patchelf-0.9/src/patchelf.cc:662-715 | a section of code or data that was not asked for keeps address, size and contents' place, and nothing pulled in was behind it |
| Layout.StopsIntro | bitcoin-core/patchelf-0.9/src/patchelf.cc:686-699 | the scan stops at the first section of code or data other than .interp, behind .dynstr, or behind the last section that was asked for, whichever comes first |
| Image.LessMeaning | bitcoin-core/patchelf-0.9/src/patchelf.cc:515-526 | the order of the replacements is that of std::string: at the first difference the smaller byte, or the end, comes first |
| Rounding.WidthsOfClass | bitcoin-core/patchelf-0.9/src/patchelf.cc:403-406 | addresses wrap at 2^32 or 2^64 and sizes are rounded up to 4 or 8 bytes |
| Rewriting.SegmentsFollowIntro | bitcoin-core/patchelf-0.9/src/patchelf.cc:531-560 | PT_INTERP and PT_DYNAMIC segments describe their sections after these have been replaced, PT_PHDR the table, and all other segments are unchanged |
| Patching.PatchedEntries | bitcoin-core/patchelf-0.9/src/patchelf.cc:832-875 | the repaired dynamic section has the same tags in the same order, and header values for those that refer to sections |
| Patching.PatchedSymbols | bitcoin-core/patchelf-0.9/src/patchelf.cc:878-901 | every symbol of a repaired table names the section it named, section symbols have its address |
| CrossReferences.SymbolsSurvive | bitcoin-core/patchelf-0.9/src/patchelf.cc:655-901 | read at the offsets of the gABI, after a whole rewrite every symbol is in the section it was in in the input file, and section symbols have the final address |
| CrossReferences.EntriesSurvive | bitcoin-core/patchelf-0.9/src/patchelf.cc:832-875 | read at the offsets of the gABI and by literal tags, after a whole rewrite each DT_STRTAB, DT_STRSZ, DT_SYMTAB, DT_HASH, DT_GNU_HASH, DT_JMPREL, DT_REL, DT_RELA, DT_VERNEED and DT_VERSYM entry agrees with the final header, all others are as before |
| Rewriting.RewrittenIntro | bitcoin-core/patchelf-0.9/src/patchelf.cc:765-773 | writing replacements into free room and then the headers completes a rewrite that preserves contents, references and places |
| Rewriting.NothingFollowsExplained | bitcoin-core/patchelf-0.9/src/patchelf.cc:680 | the assertion that some section follows the replaced ones fails only if none does in the input |
| Editing.SetRPath | bitcoin-core/patchelf-0.9/src/patchelf.cc:1030-1221 | setting the run path turns the dynamic table and strings into those of the specification in place or by replacement, changes nothing else, and fails exactly for missing or foreign string tables |
| Editing.PrintRPath | bitcoin-core/patchelf-0.9/src/patchelf.cc:1061-1083 | what is printed is the string of DT_RUNPATH, or of DT_RPATH if there is none |
| Editing.RemoveRPath | bitcoin-core/patchelf-0.9/src/patchelf.cc:1135-1156 | exactly the run path entries are dropped in place, and the file counts as changed exactly if there were any |
| Editing.AddEntries | bitcoin-core/patchelf-0.9/src/patchelf.cc:1202-1219 | the grown dynamic section has the new entries in front of all old ones |
| Editing.EditedIntro | bitcoin-core/patchelf-0.9/src/patchelf.cc:1030-1339 | every edit leaves all sections but .dynamic and .dynstr alone |
| Dynamic.SetThenPrint | bitcoin-core/patchelf-0.9/src/patchelf.cc:1061-1220 | setting then printing the run path gives what was set, exactly but for one case under --force-rpath, also when the strings of DT_RPATH and DT_RUNPATH share a tail |
| Dynamic.ForcedSetCanBeOverlooked | bitcoin-core/patchelf-0.9/src/patchelf.cc:1179-1186 | a file on which --force-rpath with a shorter path does not have its effect |
| Dynamic.TagsAfterSet | bitcoin-core/patchelf-0.9/src/patchelf.cc:1173-1220 | which tags remain: a DT_RUNPATH exactly without --force-rpath, or if it was alone |
| Dynamic.OtherEntriesStay | bitcoin-core/patchelf-0.9/src/patchelf.cc:1159-1220 | all other entries stay, in place or one further down |
| Dynamic.OtherStringsStay | bitcoin-core/patchelf-0.9/src/patchelf.cc:1162-1193 | every string that shares no byte with the old run path reads as before |
| Dynamic.RemovePathMeaning | bitcoin-core/patchelf-0.9/src/patchelf.cc:1135-1156 | after removal nothing is printed and exactly the other entries are left |
| DynamicBytes.Decomposed | bitcoin-core/patchelf-0.9/src/patchelf.cc:1046-1049 | a terminated section is the encoding of its entries followed by a null entry |
| DynamicBytes.Composed | bitcoin-core/patchelf-0.9/src/patchelf.cc:1202-1219 | entries followed by a null entry read back as these entries |
| DynamicBytes.StoredAt | bitcoin-core/patchelf-0.9/src/patchelf.cc:1195-1199 | storing an entry changes that entry and no other |
| Surviving.SetRewriteThenPrint | bitcoin-core/patchelf-0.9/src/patchelf.cc:1030-1221 | set, in place or not, rewrite if there is something to rewrite, print: the final file prints the path that was set, but for the same one case |
| Surviving.ForcedSetCanFail | bitcoin-core/patchelf-0.9/src/patchelf.cc:1179-1186 | a whole file on which --set-rpath with --force-rpath, whatever it writes, leaves another path in effect |
| Surviving.AddRewriteThenPrint | bitcoin-core/patchelf-0.9/src/patchelf.cc:1294-1339 | add, rewrite, print: the final file lists the new libraries and then the old ones |
| Surviving.EditedIsRewritable | bitcoin-core/patchelf-0.9/src/patchelf.cc:776-793 | an edited file meets the conditions of the rewrite |
| Surviving.RewriteKeepsStrings | bitcoin-core/patchelf-0.9/src/patchelf.cc:831-875 | a rewrite changes neither run path nor needed libraries |
| NeededEditing.RemoveNeeded | bitcoin-core/patchelf-0.9/src/patchelf.cc:1225-1250 | the compaction in place leaves exactly the entries of the specification, and reports a change exactly if something was listed |
| NeededEditing.ReplaceNeeded | bitcoin-core/patchelf-0.9/src/patchelf.cc:1253-1290 | names are replaced through new strings at the end of the string table |
| NeededEditing.AddNeeded | bitcoin-core/patchelf-0.9/src/patchelf.cc:1294-1339 | the grown sections are those of the specification |
| Needed.RemoveMeaning | bitcoin-core/patchelf-0.9/src/patchelf.cc:1225-1250 | removal is an order-preserving filter on the names; other entries stay |
| Needed.ReplaceMeaning | bitcoin-core/patchelf-0.9/src/patchelf.cc:1253-1290 | replacement is simultaneous, not chained; other entries stay |
| Needed.ReplaceKeepsStrings | bitcoin-core/patchelf-0.9/src/patchelf.cc:1270-1280 | old references still resolve to the same strings |
| Needed.AddMeaning | bitcoin-core/patchelf-0.9/src/patchelf.cc:1294-1339 | the new names come first, in order; old names, entries and strings stay |
| ShrinkEditing.ShrinkRPath | bitcoin-core/patchelf-0.9/src/patchelf.cc:1030-1221 | shrinking sets the run path to the specified one, for any state of the file system |
| ShrinkEditing.ShrinkThenResolve | bitcoin-core/patchelf-0.9/src/patchelf.cc:1093-1220 | in the edited tables, library resolution is as before exactly when the working directory is not lost where it matters |
| Shrinking.Shrink | bitcoin-core/patchelf-0.9/src/patchelf.cc:1093-1133 | the loop computes the specified path |
| Shrinking.KeptExactly | bitcoin-core/patchelf-0.9/src/patchelf.cc:1103-1132 | kept are, in order, exactly the relative directories and the first absolute directory with some needed library |
| Resolution.ShrinkingResolves | bitcoin-core/patchelf-0.9/src/patchelf.cc:1093-1133 | for every run path, each needed library is found in the same directory before and after, whatever the relative directories have, exactly when no empty component is lost that matters: what is kept does not begin with one, and one at the end occurs before as well or every needed library is on disk in some absolute directory |
| Resolution.ShrunkSearchList | bitcoin-core/patchelf-0.9/src/patchelf.cc:1022-1026 | the loader splits the new path into what was kept, without empty components in front |
| Resolution.SplitMeaning | bitcoin-core/patchelf-0.9/src/patchelf.cc:1093-1104 | the components the loader sees are the pieces without a colon that, joined by colons, are the path |
| Resolution.SplitIsComponents | bitcoin-core/patchelf-0.9/src/patchelf.cc:1093-1104 | the loop sees the components that the loader sees, except for an empty one at the end |
| Resolution.LeadingEmptyIsLost | bitcoin-core/patchelf-0.9/src/patchelf.cc:1022-1026 | an empty first component is lost, and with it what was found there |
| Resolution.TrailingEmptyIsLost | bitcoin-core/patchelf-0.9/src/patchelf.cc:1097-1104 | an empty last component is lost, and with it what was found there |
| Shrinking.ShrunkComponents | bitcoin-core/patchelf-0.9/src/patchelf.cc:1022-1026 | the loop would split the new path into what was kept exactly when its first and last component are not empty |
| Shrinking.ShrinkTwice | bitcoin-core/patchelf-0.9/src/patchelf.cc:1093-1133 | shrinking twice is shrinking once exactly when the last kept component is not empty, or all are |
| Shrinking.ShrunkIsNoLonger | bitcoin-core/patchelf-0.9/src/patchelf.cc:1182-1186 | the shrunk path fits in the place of the old one |
| Shachain.LinkFlipsOneBit | signer/ComputeInputScript_test.go:2077-2080 | what a link hashes is, as a number, the secret with exactly the bit of that position exchanged: plus or minus 2^position |
| Shachain.FlipBitFlips | signer/ComputeInputScript_test.go:2077-2080 | flipping a bit of a byte changes that bit and no other |
| Shachain.TrailingZerosMeaning | signer/ComputeInputScript_test.go:2027-2037 | the bucket of an index is how often it can be halved, up to 48 |
| Shachain.PrefixIsMultiple | signer/ComputeInputScript_test.go:2043-2062 | the prefix is the index without its remainder modulo a power of two |
| Shachain.DerivableIsInterval | signer/ComputeInputScript_test.go:1983-2062 | the indices derivable from one are exactly those of its block |
| Shachain.BlocksNestedOrDisjoint | signer/ComputeInputScript_test.go:1983-2062 | any two sets of derivable indices are nested or disjoint |
| Shachain.TransformationsMeaning | signer/ComputeInputScript_test.go:1983-2023 | positions strictly decrease, are exactly the differing bits, and account for the distance |
| Shachain.PathIndependence | signer/ComputeInputScript_test.go:1983-2023 | the positions of a derivation in two steps are those of the direct one |
| Shachain.DeriveIsPathIndependent | signer/ComputeInputScript_test.go:2066-2095 | for any hash function the derived secret does not depend on the route |
| Shachain.ProducerMeetsBolt3 | signer/ComputeInputScript_test.go:1950-1952 | a producer answers exactly the first 2^48 requests, with the secrets that BOLT #3 generates from the seed by exchanging bits of numbers, section "Per-commitment Secret Requirements" |
| Shachain.AtIndex | signer/ComputeInputScript_test.go:2101-2110 | the routine gives that secret, or an error where there is none |
| Shachain.Derive | signer/ComputeInputScript_test.go:2066-2095 | the loop of flips and hashes computes the derived element |
| Shachain.DeriveBitTransformations | signer/ComputeInputScript_test.go:1983-2023 | the loop finds the flips from one index to another, or that there are none |
| Shachain.CountTrailingZeros | signer/ComputeInputScript_test.go:2027-2037 | the zeros counted are the trailing ones, at most 48 |
| VarInts.VarIntExactly | signer/ComputeInputScript_test.go:1268-1323 | ReadVarInt accepts exactly the image of WriteVarInt |
| VarInts.VarIntPanics | signer/ComputeInputScript_test.go:1268-1323 | it panics exactly on complete encodings that are not the shortest |
| Transactions.DecodeExactly | signer/ComputeInputScript_test.go:1607-1778 | the decoder accepts exactly the BIP 144 encodings of transactions within its limits, and returns what was encoded and the rest of the input |
| Transactions.DecodeOfSerialize | signer/ComputeInputScript_test.go:1607-1778 | decoding undoes encoding exactly when the transaction has an input or is in the marker form |
| Transactions.ScriptExactly | signer/ComputeInputScript_test.go:1421-1444 | a script is read exactly as it was written, up to the limit |
| Transactions.InsExactly | signer/ComputeInputScript_test.go:1399-1411 | inputs are read exactly as they were written |
| Transactions.OutsExactly | signer/ComputeInputScript_test.go:1592-1601 | outputs are read exactly as they were written |
| Transactions.StacksExactly | signer/ComputeInputScript_test.go:1741-1772 | witnesses are read exactly as they were written, within the limits on items |
| Transactions.SerializedForm | signer/ComputeInputScript_test.go:1619-1644 | the byte behind the version tells the two forms apart, except for a legacy transaction without inputs |
| ScriptPools.BtcDecode | signer/ComputeInputScript_test.go:1607-1848 | the routine decodes as specified; on every path that does not panic all borrowed buffers are back, and on success the scripts lie one behind the other in one new allocation that is no pool buffer |
| ScriptPools.ReturnScriptBuffers | signer/ComputeInputScript_test.go:1661-1683 | after an error every held buffer is offered back once, and none is left lent |
| ScriptPools.Repack | signer/ComputeInputScript_test.go:1794-1848 | every script and witness item keeps its bytes, the final offset is the total size, and every buffer is given back |
| ScriptPools.ChainApart | signer/ComputeInputScript_test.go:1794-1848 | no two of the resulting slices share a byte |
| ScriptPools.ReadScriptInto | signer/ComputeInputScript_test.go:1421-1444 | a script is read into a buffer nobody else holds; after a short read it goes back at once |
| ScriptPools.ReadInsInto | signer/ComputeInputScript_test.go:1687-1700 | the inputs read are as specified, their buffers are exactly those newly lent, also after an error |
| ScriptPools.ReadStacksInto | signer/ComputeInputScript_test.go:1741-1772 | the witnesses read are attached to their inputs, and the message holds exactly the lent buffers |
| ScriptPools.ScriptPool.Borrow | signer/ComputeInputScript_test.go:1452-1464 | a buffer lent is not lent already, and is large enough |
| ScriptPools.ScriptPool.Return | signer/ComputeInputScript_test.go:1381-1395 | only a lent buffer may be offered; it joins the list if it has the pooled capacity and there is room |
| Scripts.WrittenFirst | signer/ComputeInputScript_test.go:506-584 | in the numbers of the table: a script that begins with a push of 1 to 75 bytes, with 0x4c, 0x4d or 0x4e, a length of 1, 2 or 4 bytes and that many bytes, or with any other byte, parses to that opcode followed by what the rest parses to |
| Scripts.OpcodeTable | signer/ComputeInputScript_test.go:785-836 | an opcode has bytes exactly as that table says |
| Scripts.ParseBehind | signer/ComputeInputScript_test.go:1036-1114 | what stands behind the bytes of any opcodes is parsed as if it stood alone |
| Scripts.ErrorExactly | signer/ComputeInputScript_test.go:1036-1114 | parsing fails at the front exactly when the script ends within its first opcode, by the same numbers |
| Scripts.ParsedUpTo | signer/ComputeInputScript_test.go:1036-1114 | parsing goes on exactly to the end, or to an opcode within which the script ends |
| Scripts.UnparseOfParse | signer/ComputeInputScript_test.go:1036-1114 | what parsing yields unparses to the script, or after an error to a proper prefix of it |
| Scripts.ParseOfUnparse | signer/ComputeInputScript_test.go:841-851 | opcodes that can be unparsed are what parsing their bytes yields |
| Scripts.FrontExactly | signer/ComputeInputScript_test.go:785-836 | an opcode is read at the front of a script exactly when the script begins with its bytes |
| Scripts.ParseScript | signer/ComputeInputScript_test.go:1036-1114 | the loop computes the opcodes up to the end or the first error, on every byte string |
| Scripts.UnparseScript | signer/ComputeInputScript_test.go:841-851 | the loop computes the bytes, or reports inconsistent data |
| Sighash.HashToSign | signer/ComputeInputScript_test.go:1120-1133 | for every script that parses and every existing input, what is hashed is the preimage of the ten fields, and for the hash types 1, 2, 3, 0x81, 0x82 and 0x83 these are written out by number (`Sighash.FieldsByNumber`); a script that does not parse or an index beyond the inputs is an error, a negative index a panic, and nothing else |
| Sighash.CalcWitnessSignatureHash | signer/ComputeInputScript_test.go:899-1001 | the buffer that is hashed is the preimage; an index beyond the inputs is an error, a negative one a panic |
| Sighash.StandardByNumber | signer/ComputeInputScript_test.go:921-992 | BIP 143 for the six standard types by number: hashPrevOuts for 1, 2, 3, hashSequence for 1 alone, hashOutputs for 1 and 0x81, the hash of the output with the same index for 3 and 0x83, zeros otherwise |
| Sighash.PreimageLayout | signer/ComputeInputScript_test.go:913-999 | which bytes of the preimage hold which field |
| Sighash.BitsOfType | signer/ComputeInputScript_test.go:921-992 | which binary digits of a hash type the tests look at |
| Sighash.FieldsAreBip143 | signer/ComputeInputScript_test.go:978-992 | the fields are those of BIP 143 exactly for these hash types, unless the hash of the outputs is zero |
| Sighash.StandardFields | signer/ComputeInputScript_test.go:921-992 | for ALL, NONE and SINGLE, with or without ANYONECANPAY, the fields are those of BIP 143 |
| Sighash.NonStandardFields | signer/ComputeInputScript_test.go:978-992 | hash type 6 gives other fields than BIP 143 |
| Sighash.CodeIsBip143 | signer/ComputeInputScript_test.go:949-966 | the script code is the length-prefixed script, or the 25-byte script for a witness public key hash, and the ignored error does not occur |
| Sighash.ProgramParsed | signer/ComputeInputScript_test.go:855-859 | the test on the opcodes recognises exactly the 22-byte programs |
| Sighash.PreimageInjective | signer/ComputeInputScript_test.go:913-999 | the preimage determines all ten fields |
| SignRequests.Serialize | electrum-lnd/lightning-proxy/proxy.go:67-133 | the bytes written are the fields in wire order with their length in front |
| SignRequests.SerializeTx | electrum-lnd/lightning-proxy/proxy.go:135-160 | a request is transaction, descriptor and key one after the other |
| SignRequests.DecodeSigndesc | electrum.patch:150-195 | the parser that strips the tail from the end accepts the same strings with the same fields as reading forwards |
| SignRequests.ParseForwards | signer/ComputeInputScript_test.go:2183-2254 | the signer's parser accepts the same strings with the same fields |
| SignRequests.DescriptorExactly | signer/ComputeInputScript_test.go:2183-2228 | what is accepted is exactly what can be written with a 16-bit length, and is read as written |
| SignRequests.DescriptorRoundTrip | electrum-lnd/lightning-proxy/proxy.go:67-133 | a descriptor is read back exactly when its length fits in 16 bits |
| SignRequests.RequestRoundTrip | electrum.patch:239-244 | a request falls apart into its three parts exactly when the length of the transaction fits in 16 bits |
| SignRequests.GoGetsDescriptor | signer/ComputeInputScript_test.go:2229-2284 | the signer gets the descriptor itself exactly when its slices are there, it has a double tweak, and its key is not all zeros |
| SignRequests.TweakingKept | signer/ComputeInputScript_test.go:1244-1266 | the key is tweaked as the proxy's descriptor asks exactly when there is a single tweak: the parser turns an absent one into an empty one |
| SignRequests.GoSignDescriptor | signer/ComputeInputScript_test.go:2183-2284 | parsing, the test for a zero key, and the descriptor made of the fields |
| SignRequests.GoEndToEnd | signer/ComputeInputScript_test.go:2172-2284 | of a request without node key the signer gets transaction and descriptor exactly when both lengths fit in 16 bits and it keeps the descriptor |
| SignRequests.PythonGetsDescriptor | electrum.patch:196-209 | the Python parser gets it exactly when it has a key, no slice that is there but empty, no all-zero double tweak and no negative number |
| SignRequests.PythonSignDescriptor | electrum.patch:150-209 | parsing and the replacement of empty and zero fields |
| SignRequests.PythonEndToEnd | electrum.patch:150-244 | of a request written by the proxy Electrum gets transaction, descriptor and key exactly when both lengths fit in 16 bits and it keeps the descriptor |
| Sltar.MakeHeader | bitcoin-core/sltar.c:63-101 | the writes at their offsets give the header with all fields in place and its own checksum |
| Sltar.PosixHeader | bitcoin-core/sltar.c:43-101 | texts and numbers that fit are at the offsets of the POSIX ustar format, numbers in octal digits, with magic, version and type |
| Sltar.WriteFile | bitcoin-core/sltar.c:63-111 | header and zero-filled blocks of a regular file |
| Sltar.ComputeChecksum | bitcoin-core/sltar.c:56-61 | the loop computes the wrapped sum of signed characters, with blanks for the checksum |
| Sltar.ChecksumIsPosix | bitcoin-core/sltar.c:56-61 | it is the checksum of the POSIX ustar format exactly when no header byte is above 127 |
| Sltar.HeaderChecks | bitcoin-core/sltar.c:150-152 | a header always passes the checksum test |
| Sltar.OctFieldValue | bitcoin-core/sltar.c:177 | a number that fits its field, and a long, is read back |
| Sltar.StrTolMeaning | bitcoin-core/sltar.c:177 | behind blanks and a sign, the digits up to the first other byte spell the number read, held within 64 bits |
| Sltar.FirstEntry | bitcoin-core/sltar.c:113-181 | name and content come back exactly when the name has at most 99 bytes and the size is below 2^31; the checksum never fails |
| Sltar.DataOfBlocks | bitcoin-core/sltar.c:154-157 | the content comes out of its blocks, and exactly these are consumed |
| Sltar.ArchiveRoundTrip | bitcoin-core/sltar.c:113-181 | extracting an archive visits exactly its files in order with their contents and no checksum failure |
| Sltar.ExtractAll | bitcoin-core/sltar.c:113-181 | the loops visit entries as specified on any input, including a truncated one |

## Left out

- The ELF header is a record beside the buffer; its bytes in the buffer, below the first section, are only known not to be overwritten by sections or tables.
- `parse` and the checks it makes; big-endian files.
- ElfFiles.ElfFile.SortPhdrs: the model's sort puts all PT_PHDR segments first; with two of them the comparison of the source is no order, and what the library sort then does is undefined.
- The library sort is modelled by its contract; any ordered arrangement is allowed.
- Overflow of 32-bit sizes beyond the limits named above, and several edits in one run, which reuse outdated sizes.
- `--set-interpreter`, `--set-soname` and `--no-default-lib`: the same replacements and prepended entries as the operations modelled.
- Reading and writing files, options, printing; `stat` is an arbitrary oracle.
- The big integers, curves, keys, address and wallet code of the signer, and the key tweaks; secrets and hashes are opaque bytes.
- Transactions.DecodeExactly: says which inputs are accepted and what they give, not which of the rejected ones panic; the panics are in `VarInts.VarIntPanics`, `Transactions.Decode` and `ScriptPools.BtcDecode`.
- Other decoders using the same buffer pool at the same time; the pool is seen by one decoder.
- The validity of curve points in a sign request, and the handling of messages around it.
- Digits in a size field that run on behind the end of the block, and a `long` of less than 64 bits; directories, links and devices in archives, whose size field runs on into the next one; the failure of system calls.
- The proxy's channels and servers, the Python servers, build scripts and patches to other projects.
